/** The audit trail over whole runs: what was recorded stays, and what was done is recorded. */
module Trail {
  import opened ByteStrings
  import opened Paths
  import Envelope
  import opened SecretTables
  import AuditEntries
  import HashChain
  import TagTables
  import opened AuditLog
  import opened Daemon

  // ----- what a step does: nothing, or a change and an entry -----

  /** Every event but a rotation and a restart. */
  predicate Ordinary(e: Event) {
    !e.Rekey? && !e.Restart?
  }

  /** The guards under which a handler stops before it has changed or recorded anything. */
  ghost predicate LeavesAlone(d: State, e: Event)
    requires Ordinary(e)
  {
    match e
    case Refused(_, _, _) => false
    case Write(_, path, newId, _, _, _, _) => BeginWrite(d.disk.secrets, path, newId).Err?
    case Read(_, path, selector) => ReadValue(d, path, selector).Err?
    case RollBack(_, path, to) => Rollback(d.disk.secrets, path, to).Err?
    case Delete(_, path, selector, mode) => DeleteVersion(d.disk.secrets, path, selector, mode).Err?
    case AddTags(_, path, _) => path !in d.disk.secrets
    case RemoveTags(_, path, _) => path !in d.disk.secrets
    case ResolveBatch(_, targets) => !AllReadable(d, targets)
    case Observe(_, _, _) => false
  }

  /** The entry recorded otherwise: who did what, to which version of which path. */
  ghost function EntryOf(d: State, e: Event): AuditEntries.Entry
    requires Ordinary(e) && !LeavesAlone(d, e)
  {
    match e
    case Refused(caller, about, detail) => RefusalEntry(caller, about, detail)
    case Write(caller, path, newId, _, _, _, _) =>
      RecordEntry(caller, AuditEntries.Write, Some(path), Some(BeginWrite(d.disk.secrets, path, newId).value.version))
    case Read(caller, path, selector) =>
      RecordEntry(caller, AuditEntries.Read, Some(path), Some(ReadValue(d, path, selector).value.0))
    case RollBack(caller, path, to) => RecordEntry(caller, AuditEntries.Rollback, Some(path), Some(to))
    case Delete(caller, path, selector, mode) =>
      RecordEntry(caller, AuditEntries.Delete, Some(path), Some(DeleteVersion(d.disk.secrets, path, selector, mode).value.1))
    case AddTags(caller, path, _) => RecordEntry(caller, AuditEntries.Tag, Some(path), None)
    case RemoveTags(caller, path, _) => RecordEntry(caller, AuditEntries.Tag, Some(path), None)
    case ResolveBatch(caller, _) => RecordEntry(caller, AuditEntries.Resolve, None, None)
    case Observe(caller, action, about) => RecordEntry(caller, action, about, None)
  }

  /** A step cut short after its tables have changed and before its entry is appended. */
  ghost function Unrecorded(c: Crypto, w: World, e: Event): World {
    var w' := Step(c, w, e);
    w'.(daemon := w'.daemon.(disk := w'.daemon.disk.(log := w.daemon.disk.log)))
  }

  lemma LoggedChangesTheLog(c: Crypto, d: State, e: AuditEntries.Entry)
    ensures Logged(c, d, e) == d.(disk := d.disk.(log := Logged(c, d, e).disk.log))
    ensures Logged(c, d, e).disk.log ==
      if Append(c.mac, d.keys.auditKey, d.disk.log, e).Ok? then Append(c.mac, d.keys.auditKey, d.disk.log, e).value
      else d.disk.log
  {
  }

  lemma WriteRecords(c: Crypto, w: World, e: Event)
    requires e.Write?
    ensures LeavesAlone(w.daemon, e) ==> WriteStep(c, w, e) == w
    ensures !LeavesAlone(w.daemon, e) ==>
      && WriteStep(c, w, e).daemon == Logged(c, Unrecorded(c, w, e).daemon, EntryOf(w.daemon, e))
      && Unrecorded(c, w, e).daemon.keys == w.daemon.keys && Unrecorded(c, w, e).daemon.kek == w.daemon.kek
      && Unrecorded(c, w, e).daemon.disk.sealedMaster == w.daemon.disk.sealedMaster
  {
    var (d, disk) := (w.daemon, w.daemon.disk);
    hide Logged, RecordEntry, BeginWrite, TagTables.AddTags, Commit, Envelope.Seal, Append;
    var r := BeginWrite(disk.secrets, e.path, e.newId);
    if r.Ok? {
      var sealed := Envelope.Seal(d.keys.master, d.keys.generation, SlotBinding(r.value), e.plaintext, e.rnd);
      var disk' := disk.(
        secrets := Commit(disk.secrets, r.value, sealed, e.meta),
        tags := if e.tags == [] then disk.tags else TagTables.AddTags(disk.tags, r.value.row.id, e.tags));
      LoggedChangesTheLog(c, d.(disk := disk'), EntryOf(d, e));
      assert WriteStep(c, w, e).daemon == Logged(c, d.(disk := disk'), EntryOf(d, e));
      assert Unrecorded(c, w, e).daemon == d.(disk := disk');
    }
  }

  /** Every ordinary event is left alone, or changes the tables and then appends its entry under the key in memory. */
  lemma StepRecords(c: Crypto, w: World, e: Event)
    requires Ordinary(e)
    ensures LeavesAlone(w.daemon, e) ==> Step(c, w, e) == w
    ensures !LeavesAlone(w.daemon, e) ==>
      Step(c, w, e).daemon == Logged(c, Unrecorded(c, w, e).daemon, EntryOf(w.daemon, e))
    ensures var d := Unrecorded(c, w, e).daemon;
      && d.keys == w.daemon.keys && d.kek == w.daemon.kek
      && d.disk.sealedMaster == w.daemon.disk.sealedMaster && d.disk.log == w.daemon.disk.log
  {
    hide Logged, RecordEntry, RefusalEntry, BeginWrite, DeleteVersion, Rollback, ReadValue, AllReadable, Append, WriteStep;
    hide TagTables.AddTags, TagTables.RemoveTags;
    var (d, disk) := (w.daemon, w.daemon.disk);
    if e.Write? {
      WriteRecords(c, w, e);
    } else if !LeavesAlone(d, e) {
      var secrets :=
        if e.RollBack? then Rollback(disk.secrets, e.path, e.to).value
        else if e.Delete? then DeleteVersion(disk.secrets, e.path, e.selector, e.mode).value.0
        else disk.secrets;
      var tags :=
        if e.AddTags? then TagTables.AddTags(disk.tags, disk.secrets[e.path].id, e.tags)
        else if e.RemoveTags? then TagTables.RemoveTags(disk.tags, disk.secrets[e.path].id, e.selectors)
        else disk.tags;
      var d' := d.(disk := disk.(secrets := secrets, tags := tags));
      LoggedChangesTheLog(c, d', EntryOf(d, e));
      assert Step(c, w, e).daemon == Logged(c, d', EntryOf(d, e));
      assert Unrecorded(c, w, e).daemon == d';
    }
  }

  /** A coherent daemon stays so with the log another coherent one holds under the same keys. */
  lemma CoherentWithLogOf(c: Crypto, w: World, w': World)
    requires Coherent(c, w) && Coherent(c, w') && w.daemon.keys == w'.daemon.keys
    ensures Coherent(c, w'.(daemon := w'.daemon.(disk := w'.daemon.disk.(log := w.daemon.disk.log))))
  {
    hide SecretsCoherent, TagTables.TagsOk, Envelope.UnsealMaster, LogCoherent;
    LogCoherentOnlyReads(c, w.daemon, w'.daemon.(disk := w'.daemon.disk.(log := w.daemon.disk.log)));
  }

  /**
   * The entry is a transaction of its own. Cut short before it, any handler leaves a coherent daemon: what was
   * written is there and opens, and the log verifies; only the entry is missing.
   */
  lemma UnrecordedIsCoherent(c: Crypto, w: World, e: Event)
    requires Coherent(c, w) && Ordinary(e)
    ensures Coherent(c, Unrecorded(c, w, e)) && MovesOn(w, Unrecorded(c, w, e))
  {
    hide Step, Coherent, Logged, Evolves, LeavesAlone, EntryOf;
    StepSound(c, w, e);
    StepRecords(c, w, e);
    if !LeavesAlone(w.daemon, e) {
      LoggedChangesTheLog(c, Unrecorded(c, w, e).daemon, EntryOf(w.daemon, e));
    }
    CoherentWithLogOf(c, w, Step(c, w, e));
  }

  /** So does a write cut short among its tags, whose version has long been committed. */
  lemma WriteCutAmongTags(c: Crypto, w: World, e: Event, k: nat)
    requires Coherent(c, w) && e.Write? && k <= |e.tags| && BeginWrite(w.daemon.disk.secrets, e.path, e.newId).Ok?
    ensures var (d, slot) := (w.daemon, BeginWrite(w.daemon.disk.secrets, e.path, e.newId).value);
      var sealed := Envelope.Seal(d.keys.master, d.keys.generation, SlotBinding(slot), e.plaintext, e.rnd);
      var disk := d.disk.(
        secrets := Commit(d.disk.secrets, slot, sealed, e.meta),
        tags := TagTables.AddTags(d.disk.tags, slot.row.id, e.tags[..k]));
      Coherent(c, World(d.(disk := disk), w.written[(e.path, slot.version) := e.plaintext]))
  {
    var cut := Write(e.caller, e.path, e.newId, e.plaintext, e.rnd, e.meta, e.tags[..k]);
    UnrecordedIsCoherent(c, w, cut);
    hide Coherent, BeginWrite, Commit, Envelope.Seal, Append, RecordEntry;
    var d := Unrecorded(c, w, cut).daemon;
    assert TagTables.AddTags(w.daemon.disk.tags, BeginWrite(w.daemon.disk.secrets, e.path, e.newId).value.row.id, [])
      == w.daemon.disk.tags;
    hide TagTables.AddTags;
  }

  // ----- what was recorded stays -----

  /** Every row of `log` is still there under its number with its contents; only hashes may differ. */
  ghost predicate Kept(log: Log, log': Log) {
    && |log.rows| <= |log'.rows|
    && forall i :: 0 <= i < |log.rows| ==> SameContents(log.rows[i], log'.rows[i])
  }

  lemma KeptTransitive(a: Log, b: Log, c: Log)
    requires Kept(a, b) && Kept(b, c)
    ensures Kept(a, c)
  {
  }

  lemma NothingLost(log: Log)
    ensures Kept(log, log)
  {
  }

  lemma LoggedKeeps(c: Crypto, d: State, e: AuditEntries.Entry)
    ensures var (log, log') := (d.disk.log, Logged(c, d, e).disk.log);
      Kept(log, log') && |log'.rows| <= |log.rows| + 1
  {
    hide AuditEntries.Canonical, RowOf, LinkOf, ReadEntry, HashChain.EncodeAnchor;
    var r := Append(c.mac, d.keys.auditKey, d.disk.log, e);
    if r.Ok? {
      AppendedLinks(c.mac, d.keys.auditKey, d.disk.log, e);
      assert forall i :: 0 <= i < |d.disk.log.rows| ==> r.value.rows[i] == r.value.rows[..|d.disk.log.rows|][i];
    }
  }

  lemma RekeyKeeps(c: Crypto, w: World, e: Event)
    requires e.Rekey? && Coherent(c, w)
    ensures var (log, log') := (w.daemon.disk.log, RekeyStep(c, w.daemon, e).disk.log);
      Kept(log, log') && |log'.rows| <= |log.rows| + 1
  {
    hide Logged, Rotation.RotateAll, RekeyChain, Verify, StoreOk, Rotation.Readable, NextRowId;
    var d := w.daemon;
    RekeyPreservesHistory(c.mac, d.keys.auditKey, c.auditKeyOf(e.successor), d.disk.log);
    if d.keys.generation + 1 < U32_LIMIT && Rotation.RotateAll(RotorFor(d, e), d.disk.secrets).Some? {
      var entry := RecordEntry(e.caller, AuditEntries.Rekey, None, None);
      LoggedKeeps(c, AtBoundary(c, d, e, Adopted), entry);
      KeptTransitive(d.disk.log, AtBoundary(c, d, e, Adopted).disk.log, RekeyStep(c, d, e).disk.log);
    }
  }

  lemma RestartKeeps(c: Crypto, d: State, e: Event)
    requires e.Restart?
    ensures var (log, log') := (d.disk.log, RestartStep(c, d, e).disk.log);
      Kept(log, log') && |log'.rows| <= |log.rows| + 1
  {
    NothingLost(d.disk.log);
    hide Logged, Kept, UnsealEntry, Envelope.UnsealMaster;
    if d.disk.sealedMaster.Some? {
      var (sealed, unsealed) := (d.disk.sealedMaster.value, Envelope.UnsealMaster(d.kek, d.disk.sealedMaster.value));
      if unsealed.Ok? {
        var keys := KeyMaterial(unsealed.value, c.auditKeyOf(unsealed.value), sealed.generation);
        LoggedKeeps(c, d.(keys := keys), UnsealEntry(e.now, e.uid));
      }
    }
  }

  /** One step adds at most one row and keeps all others. */
  lemma StepKeeps(c: Crypto, w: World, e: Event)
    requires Coherent(c, w)
    ensures var (log, log') := (w.daemon.disk.log, Step(c, w, e).daemon.disk.log);
      Kept(log, log') && |log'.rows| <= |log.rows| + 1
  {
    hide Coherent, Logged, Kept, RestartStep, RekeyStep, WriteStep, LeavesAlone, EntryOf, Unrecorded;
    NothingLost(w.daemon.disk.log);
    if e.Rekey? {
      RekeyKeeps(c, w, e);
    } else if e.Restart? {
      RestartKeeps(c, w.daemon, e);
    } else {
      hide Step;
      StepRecords(c, w, e);
      if !LeavesAlone(w.daemon, e) {
        LoggedKeeps(c, Unrecorded(c, w, e).daemon, EntryOf(w.daemon, e));
      }
    }
  }

  /** Over any run, rotations included, every entry ever recorded stays under its number with its contents. */
  lemma {:induction false} RunsKeepTheTrail(c: Crypto, w: World, events: seq<Event>)
    requires Coherent(c, w)
    ensures Kept(w.daemon.disk.log, Run(c, w, events).daemon.disk.log)
    ensures |Run(c, w, events).daemon.disk.log.rows| <= |w.daemon.disk.log.rows| + |events|
    decreases |events|
  {
    hide Coherent, Kept, Step;
    if events == [] {
      NothingLost(w.daemon.disk.log);
    } else {
      var w' := Step(c, w, events[0]);
      StepKeeps(c, w, events[0]);
      StepSound(c, w, events[0]);
      RunsKeepTheTrail(c, w', events[1..]);
      KeptTransitive(w.daemon.disk.log, w'.daemon.disk.log, Run(c, w, events).daemon.disk.log);
    }
  }

  // ----- what was done is recorded -----

  /** One more row, which reads back as this entry. */
  ghost predicate Adds(log: Log, log': Log, entry: AuditEntries.Entry) {
    |log'.rows| == |log.rows| + 1 && ReadEntry(log'.rows[|log.rows|]) == Ok(entry)
  }

  lemma LoggedReadsBack(c: Crypto, d: State, entry: AuditEntries.Entry)
    requires LogCoherent(c, d) && |d.disk.log.rows| < I64_MAX
    ensures Adds(d.disk.log, Logged(c, d, entry).disk.log, entry)
  {
    hide AuditEntries.Canonical, RowOf, LinkOf, ReadEntry, Append, Verify;
    AppendKeepsValid(c.mac, d.keys.auditKey, d.disk.log, entry);
    AppendedLinks(c.mac, d.keys.auditKey, d.disk.log, entry);
  }

  lemma StepReadsBack(c: Crypto, w: World, e: Event)
    requires Coherent(c, w) && Ordinary(e) && |w.daemon.disk.log.rows| < I64_MAX
    ensures var (log, log') := (w.daemon.disk.log, Step(c, w, e).daemon.disk.log);
      if LeavesAlone(w.daemon, e) then Step(c, w, e) == w else Adds(log, log', EntryOf(w.daemon, e))
  {
    hide Logged, Step, Unrecorded, LogCoherent, Adds, LeavesAlone, EntryOf;
    StepRecords(c, w, e);
    LogCoherentOnlyReads(c, w.daemon, Unrecorded(c, w, e).daemon);
    if !LeavesAlone(w.daemon, e) {
      LoggedReadsBack(c, Unrecorded(c, w, e).daemon, EntryOf(w.daemon, e));
    }
  }

  /** No value is read, written, moved or deleted without an entry that says by whom and which version. */
  lemma AccessIsRecorded(c: Crypto, w: World, e: Event)
    requires Coherent(c, w) && |w.daemon.disk.log.rows| < I64_MAX
    requires e.Write? || e.Read? || e.RollBack? || e.Delete?
    ensures var (d, log, log', who) := (w.daemon, w.daemon.disk.log, Step(c, w, e).daemon.disk.log, e.caller);
      match e
      case Write(_, path, newId, _, _, _, _) =>
        var r := BeginWrite(d.disk.secrets, path, newId);
        if r.Err? then log' == log
        else Adds(log, log', AuditEntries.Entry(
          who.now, Some(who.prefix), Some(who.uid), Some(who.pid), AuditEntries.Write, Some(PathText(path)),
          Some(r.value.version), AuditEntries.Success, None))
      case Read(_, path, selector) =>
        var r := ReadValue(d, path, selector);
        if r.Err? then log' == log
        else Adds(log, log', AuditEntries.Entry(
          who.now, Some(who.prefix), Some(who.uid), Some(who.pid), AuditEntries.Read, Some(PathText(path)),
          Some(r.value.0), AuditEntries.Success, None))
      case RollBack(_, path, to) =>
        if Rollback(d.disk.secrets, path, to).Err? then log' == log
        else Adds(log, log', AuditEntries.Entry(
          who.now, Some(who.prefix), Some(who.uid), Some(who.pid), AuditEntries.Rollback, Some(PathText(path)),
          Some(to), AuditEntries.Success, None))
      case Delete(_, path, selector, mode) =>
        var r := DeleteVersion(d.disk.secrets, path, selector, mode);
        if r.Err? then log' == log
        else Adds(log, log', AuditEntries.Entry(
          who.now, Some(who.prefix), Some(who.uid), Some(who.pid), AuditEntries.Delete, Some(PathText(path)),
          Some(r.value.1), AuditEntries.Success, None))
  {
    hide Step, BeginWrite, DeleteVersion, Rollback, ReadValue, Coherent, PathText, Adds;
    StepReadsBack(c, w, e);
  }

  /** Nor is anything refused, tagged, read in a batch or observed: a refusal names no token, and says why. */
  lemma OtherEventsAreRecorded(c: Crypto, w: World, e: Event)
    requires Coherent(c, w) && |w.daemon.disk.log.rows| < I64_MAX
    requires e.Refused? || e.AddTags? || e.RemoveTags? || e.ResolveBatch? || e.Observe?
    ensures var (d, log, log', who) := (w.daemon, w.daemon.disk.log, Step(c, w, e).daemon.disk.log, e.caller);
      match e
      case Refused(_, about, detail) =>
        Adds(log, log', AuditEntries.Entry(
          who.now, None, Some(who.uid), Some(who.pid), AuditEntries.AuthFailure,
          if about.Some? then Some(PathText(about.value)) else None, None, AuditEntries.Denied, Some(detail)))
      case ResolveBatch(_, targets) =>
        if !AllReadable(d, targets) then log' == log
        else Adds(log, log', AuditEntries.Entry(
          who.now, Some(who.prefix), Some(who.uid), Some(who.pid), AuditEntries.Resolve, None, None,
          AuditEntries.Success, None))
      case Observe(_, action, about) =>
        Adds(log, log', AuditEntries.Entry(
          who.now, Some(who.prefix), Some(who.uid), Some(who.pid), action,
          if about.Some? then Some(PathText(about.value)) else None, None, AuditEntries.Success, None))
      case _ =>
        if e.path !in d.disk.secrets then log' == log
        else Adds(log, log', AuditEntries.Entry(
          who.now, Some(who.prefix), Some(who.uid), Some(who.pid), AuditEntries.Tag, Some(PathText(e.path)), None,
          AuditEntries.Success, None))
  {
    hide Step, AllReadable, Coherent, PathText, Adds;
    StepReadsBack(c, w, e);
  }

  /** A rotation and a restart are recorded too, the rotation under its new key. */
  lemma KeyEventsAreRecorded(c: Crypto, w: World, e: Event)
    requires Coherent(c, w) && |w.daemon.disk.log.rows| < I64_MAX
    requires e.Restart? || Rotates(w, e)
    ensures var (log, log') := (w.daemon.disk.log, Step(c, w, e).daemon.disk.log);
      if e.Restart? then Adds(log, log', AuditEntries.Entry(
        e.now, None, Some(e.uid), None, AuditEntries.Unseal, None, None, AuditEntries.Success, None))
      else Adds(log, log', AuditEntries.Entry(
        e.caller.now, Some(e.caller.prefix), Some(e.caller.uid), Some(e.caller.pid), AuditEntries.Rekey, None, None,
        AuditEntries.Success, None))
  {
    var d := w.daemon;
    if e.Restart? {
      hide Logged, SecretsCoherent, TagsCoherent, LogCoherent, Envelope.UnsealMaster, Adds;
      LoggedReadsBack(c, d, UnsealEntry(e.now, e.uid));
    } else {
      hide Coherent, Logged, RekeyChain, Rotation.RotateAll, Verifies, Dense, ReadEntry;
      RotationSucceeds(c, w, e);
      LoggedReadsBack(c, AtBoundary(c, d, e, Adopted), RecordEntry(e.caller, AuditEntries.Rekey, None, None));
    }
  }
}
