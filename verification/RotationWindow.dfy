/**
 * Between the last commit of a rotation and the adoption of its key the locks are free: what handlers that run
 * there leave behind, exactly.
 */
module RotationWindow {
  import opened ByteStrings
  import opened Paths
  import opened Envelope
  import opened SecretTables
  import opened Rotation
  import AuditEntries
  import HashChain
  import TagTables
  import opened TamperEvidence
  import opened AuditLog
  import opened Daemon
  import opened Trail

  predicate AllOrdinary(events: seq<Event>) {
    forall i :: 0 <= i < |events| ==> Ordinary(events[i])
  }

  /** The rotation has committed its store half; the retired keys are still in memory. */
  ghost function InWindow(c: Crypto, w: World, e: Event): World
    requires Rotates(w, e)
    requires RekeyChain(c.mac, w.daemon.keys.auditKey, c.auditKeyOf(e.successor), w.daemon.disk.log).Ok?
    requires RotateAll(RotorFor(w.daemon, e), w.daemon.disk.secrets).Some?
  {
    w.(daemon := AtBoundary(c, w.daemon, e, StoreCommitted))
  }

  /** The keys a rotation adopts, whatever has happened since it committed. */
  ghost function Adopting(c: Crypto, w: World, e: Event, x: World): World
    requires Rotates(w, e)
  {
    x.(daemon := x.daemon.(keys := KeyMaterial(e.successor, c.auditKeyOf(e.successor), w.daemon.keys.generation + 1)))
  }

  // ----- a log that is broken under a key stays broken -----

  ghost predicate Broken(mac: Mac, key: Key32, log: Log) {
    var r := Verify(mac, key, log);
    r.Ok? && HashChain.RowLevel(r.value)
  }

  lemma BreakSurvivesLogging(c: Crypto, key: Key32, d: State, entry: AuditEntries.Entry)
    requires Broken(c.mac, key, d.disk.log)
    ensures Verify(c.mac, key, Logged(c, d, entry).disk.log) == Verify(c.mac, key, d.disk.log)
  {
    hide AuditEntries.Canonical, LinkOf, HashChain.VerifyLinks, RowOf, ReadEntry, Append;
    var (log, r) := (d.disk.log, Append(c.mac, d.keys.auditKey, d.disk.log, entry));
    if r.Ok? {
      AppendedLinks(c.mac, d.keys.auditKey, log, entry);
      AppendsNeverRepair(c.mac, key, Links(log.rows), log.anchor, [LinkOf(r.value.rows[|log.rows|])], r.value.anchor);
    }
  }

  lemma LoggedKeepsTheRest(c: Crypto, d: State, entry: AuditEntries.Entry)
    ensures var d' := Logged(c, d, entry);
      d'.keys == d.keys && d'.kek == d.kek && d'.disk == d.disk.(log := d'.disk.log)
  {
    hide Append;
  }

  lemma {:induction false} BrokenStaysBroken(c: Crypto, key: Key32, x: World, events: seq<Event>)
    requires AllOrdinary(events) && Broken(c.mac, key, x.daemon.disk.log)
    ensures Verify(c.mac, key, Run(c, x, events).daemon.disk.log) == Verify(c.mac, key, x.daemon.disk.log)
    decreases |events|
  {
    hide Step, Logged, Verify, LeavesAlone, EntryOf, Unrecorded;
    if events != [] {
      StepRecords(c, x, events[0]);
      if !LeavesAlone(x.daemon, events[0]) {
        BreakSurvivesLogging(c, key, Unrecorded(c, x, events[0]).daemon, EntryOf(x.daemon, events[0]));
      }
      BrokenStaysBroken(c, key, Step(c, x, events[0]), events[1..]);
    }
  }

  // ----- exactly which windows do no harm -----

  /** The first event of a window that records anything, if there is one, is hashed differently under the two keys. */
  ghost predicate KeysTellApart(c: Crypto, key: Key32, d: State, events: seq<Event>)
    requires AllOrdinary(events)
  {
    forall i :: 0 <= i < |events| && !LeavesAlone(d, events[i]) && (forall j :: 0 <= j < i ==> LeavesAlone(d, events[j])) ==>
      var input := HashChain.TailOf(Links(d.disk.log.rows)) + AuditEntries.Canonical(EntryOf(d, events[i]));
      c.mac(d.keys.auditKey, input) != c.mac(key, input)
  }

  ghost predicate AllLeftAlone(d: State, events: seq<Event>)
    requires AllOrdinary(events)
  {
    forall i :: 0 <= i < |events| ==> LeavesAlone(d, events[i])
  }

  lemma ForeignStepBreaks(c: Crypto, key: Key32, x: World, e: Event)
    requires Ordinary(e) && !LeavesAlone(x.daemon, e)
    requires Verifies(c.mac, key, x.daemon.disk.log) && Dense(x.daemon.disk.log) && |x.daemon.disk.log.rows| < I64_MAX
    requires var input := HashChain.TailOf(Links(x.daemon.disk.log.rows)) + AuditEntries.Canonical(EntryOf(x.daemon, e));
      c.mac(x.daemon.keys.auditKey, input) != c.mac(key, input)
    ensures Broken(c.mac, key, Step(c, x, e).daemon.disk.log)
  {
    hide Step, Verify, Verifies, Dense, LeavesAlone, EntryOf, Unrecorded, Links, HashChain.TailOf, AuditEntries.Canonical, Append;
    StepRecords(c, x, e);
    AppendUnderOtherKey(c.mac, key, x.daemon.keys.auditKey, x.daemon.disk.log, EntryOf(x.daemon, e));
    LoggedChangesTheLog(c, Unrecorded(c, x, e).daemon, EntryOf(x.daemon, e));
  }

  /** Ordinary events under another audit key either all leave a log alone or leave it broken. */
  lemma {:induction false} ForeignRun(c: Crypto, key: Key32, x: World, events: seq<Event>)
    requires AllOrdinary(events) && KeysTellApart(c, key, x.daemon, events)
    requires Verifies(c.mac, key, x.daemon.disk.log) && Dense(x.daemon.disk.log) && |x.daemon.disk.log.rows| < I64_MAX
    ensures AllLeftAlone(x.daemon, events) ==> Run(c, x, events) == x
    ensures !AllLeftAlone(x.daemon, events) ==> Broken(c.mac, key, Run(c, x, events).daemon.disk.log)
    decreases |events|
  {
    hide Step, Verifies, Dense, LeavesAlone, EntryOf, Links, HashChain.TailOf, AuditEntries.Canonical, Verify;
    if events != [] {
      var rest := events[1..];
      if LeavesAlone(x.daemon, events[0]) {
        StepRecords(c, x, events[0]);
        LaterEventsTellApart(c, key, x.daemon, events);
        ForeignRun(c, key, x, rest);
        assert events == [events[0]] + rest;
      } else {
        ForeignStepBreaks(c, key, x, events[0]);
        BrokenStaysBroken(c, key, Step(c, x, events[0]), rest);
      }
    }
  }

  lemma LaterEventsTellApart(c: Crypto, key: Key32, d: State, events: seq<Event>)
    requires AllOrdinary(events) && events != [] && LeavesAlone(d, events[0]) && KeysTellApart(c, key, d, events)
    ensures KeysTellApart(c, key, d, events[1..])
  {
    hide LeavesAlone, EntryOf, Links, HashChain.TailOf, AuditEntries.Canonical;
    var rest := events[1..];
    forall i | 0 <= i < |rest| && !LeavesAlone(d, rest[i]) && (forall j :: 0 <= j < i ==> LeavesAlone(d, rest[j]))
      ensures var input := HashChain.TailOf(Links(d.disk.log.rows)) + AuditEntries.Canonical(EntryOf(d, rest[i]));
        c.mac(d.keys.auditKey, input) != c.mac(key, input)
    {
      assert rest[i] == events[i + 1];
      forall j | 0 <= j < i + 1 ensures LeavesAlone(d, events[j]) {
        assert j > 0 ==> events[j] == rest[j - 1];
      }
    }
  }

  /**
   * Whatever ordinary events fall into the window, the daemon is coherent after adoption exactly when every one of
   * them was stopped by its guard, as long as the audit keys tell the first one recorded apart.
   */
  lemma WindowIsCoherentExactly(c: Crypto, w: World, e: Event, events: seq<Event>)
    requires Coherent(c, w) && Rotates(w, e) && |w.daemon.disk.log.rows| < I64_MAX
    requires RekeyChain(c.mac, w.daemon.keys.auditKey, c.auditKeyOf(e.successor), w.daemon.disk.log).Ok?
    requires RotateAll(RotorFor(w.daemon, e), w.daemon.disk.secrets).Some?
    requires AllOrdinary(events) && KeysTellApart(c, c.auditKeyOf(e.successor), InWindow(c, w, e).daemon, events)
    ensures Coherent(c, Adopting(c, w, e, Run(c, InWindow(c, w, e), events))) <==>
      AllLeftAlone(InWindow(c, w, e).daemon, events)
  {
    hide Coherent, KeysTellApart, AllLeftAlone, Run, RekeyChain, RotateAll, Verify, Dense;
    var x := InWindow(c, w, e);
    WindowLogVerifies(c, w, e);
    ForeignRun(c, c.auditKeyOf(e.successor), x, events);
    if AllLeftAlone(x.daemon, events) {
      QuietWindowIsCoherent(c, w, e);
      assert Adopting(c, w, e, x) == w.(daemon := Adopt(c, AtBoundary(c, w.daemon, e, StoreCommitted), e));
    } else {
      BrokenIsNotCoherent(c, Adopting(c, w, e, Run(c, x, events)));
    }
  }

  lemma WindowLogVerifies(c: Crypto, w: World, e: Event)
    requires Coherent(c, w) && Rotates(w, e)
    requires RekeyChain(c.mac, w.daemon.keys.auditKey, c.auditKeyOf(e.successor), w.daemon.disk.log).Ok?
    requires RotateAll(RotorFor(w.daemon, e), w.daemon.disk.secrets).Some?
    ensures var log := InWindow(c, w, e).daemon.disk.log;
      && Verifies(c.mac, c.auditKeyOf(e.successor), log) && Dense(log)
      && |log.rows| == |w.daemon.disk.log.rows|
    ensures InWindow(c, w, e).daemon.keys == w.daemon.keys
  {
    hide Coherent, RekeyChain, RotateAll, Verifies, Dense;
    RotationSucceeds(c, w, e);
  }

  lemma BrokenIsNotCoherent(c: Crypto, x: World)
    requires Broken(c.mac, x.daemon.keys.auditKey, x.daemon.disk.log)
    ensures !Coherent(c, x)
  {
    hide Verify, KeysCoherent, SecretsCoherent, TagsCoherent, Dense;
  }

  // ----- a version written in the window -----

  /** The version still carries the payload it was given, or nothing at all. */
  predicate StillSealed(row: VersionRow, sealed: SealedVersion) {
    || row.state == Destroyed
    || (&& row.nonce == Some(sealed.nonce) && row.ciphertext == Some(sealed.ciphertext)
        && row.dekNonce == Some(sealed.key.dekNonce) && row.wrappedDek == Some(sealed.key.wrappedDek)
        && row.generation == sealed.key.generation)
  }

  predicate Holds(secrets: Secrets, path: SecretPath, id: Id, v: Version, sealed: SealedVersion) {
    && path in secrets && secrets[path].id == id && v in secrets[path].versions
    && StillSealed(secrets[path].versions[v], sealed)
  }

  lemma WriteHolds(
    secrets: Secrets, path: SecretPath, newId: Id, other: SealedVersion, meta: Meta,
    p: SecretPath, id: Id, v: Version, sealed: SealedVersion)
    requires Holds(secrets, p, id, v, sealed) && BeginWrite(secrets, path, newId).Ok?
    ensures Holds(Commit(secrets, BeginWrite(secrets, path, newId).value, other, meta), p, id, v, sealed)
  {
  }

  lemma DeleteHolds(
    secrets: Secrets, path: SecretPath, selector: Selector, mode: DeleteMode,
    p: SecretPath, id: Id, v: Version, sealed: SealedVersion)
    requires Holds(secrets, p, id, v, sealed) && DeleteVersion(secrets, path, selector, mode).Ok?
    ensures Holds(DeleteVersion(secrets, path, selector, mode).value.0, p, id, v, sealed)
  {
    hide HighestActive;
  }

  lemma LoggedHolds(c: Crypto, d: State, entry: AuditEntries.Entry)
    ensures Logged(c, d, entry).disk.secrets == d.disk.secrets
  {
    hide Append;
  }

  /** No ordinary event seals a version again. */
  lemma StepHolds(c: Crypto, x: World, e: Event, p: SecretPath, id: Id, v: Version, sealed: SealedVersion)
    requires Ordinary(e) && Holds(x.daemon.disk.secrets, p, id, v, sealed)
    ensures Holds(Step(c, x, e).daemon.disk.secrets, p, id, v, sealed)
  {
    hide Logged, RecordEntry, RefusalEntry, BeginWrite, DeleteVersion, ReadValue, AllReadable, StillSealed, Commit, Seal;
    hide TagTables.AddTags, TagTables.RemoveTags;
    forall d, entry { LoggedHolds(c, d, entry); }
    var (d, secrets) := (x.daemon, x.daemon.disk.secrets);
    if e.Write? && BeginWrite(secrets, e.path, e.newId).Ok? {
      var slot := BeginWrite(secrets, e.path, e.newId).value;
      var other := Seal(d.keys.master, d.keys.generation, SlotBinding(slot), e.plaintext, e.rnd);
      WriteHolds(secrets, e.path, e.newId, other, e.meta, p, id, v, sealed);
    } else if e.Delete? && DeleteVersion(secrets, e.path, e.selector, e.mode).Ok? {
      DeleteHolds(secrets, e.path, e.selector, e.mode, p, id, v, sealed);
    }
  }

  lemma {:induction false} RunHolds(
    c: Crypto, x: World, events: seq<Event>, p: SecretPath, id: Id, v: Version, sealed: SealedVersion)
    requires AllOrdinary(events) && Holds(x.daemon.disk.secrets, p, id, v, sealed)
    ensures Holds(Run(c, x, events).daemon.disk.secrets, p, id, v, sealed)
    decreases |events|
  {
    hide Holds, Step;
    if events != [] {
      StepHolds(c, x, events[0], p, id, v, sealed);
      RunHolds(c, Step(c, x, events[0]), events[1..], p, id, v, sealed);
    }
  }

  /** Adopted keys, a log broken under them, and a version they do not open: from here nothing mends it. */
  ghost predicate Stuck(c: Crypto, x: World, p: SecretPath, id: Id, v: Version, sealed: SealedVersion) {
    && KeysCoherent(c, x.daemon)
    && Broken(c.mac, x.daemon.keys.auditKey, x.daemon.disk.log)
    && Holds(x.daemon.disk.secrets, p, id, v, sealed)
  }

  lemma StuckRestart(c: Crypto, x: World, e: Event, p: SecretPath, id: Id, v: Version, sealed: SealedVersion)
    requires e.Restart? && Stuck(c, x, p, id, v, sealed)
    ensures var x' := Step(c, x, e);
      Stuck(c, x', p, id, v, sealed) && x'.daemon.keys == x.daemon.keys
  {
    hide Logged, UnsealMaster, Verify, Holds;
    BreakSurvivesLogging(c, x.daemon.keys.auditKey, x.daemon, UnsealEntry(e.now, e.uid));
    LoggedKeepsTheRest(c, x.daemon, UnsealEntry(e.now, e.uid));
  }

  lemma BrokenRefusesRekey(c: Crypto, d: State, e: Event)
    requires e.Rekey? && Broken(c.mac, d.keys.auditKey, d.disk.log)
    ensures RekeyStep(c, d, e) == d
  {
    hide RotateAll, Logged, Verify;
    RekeyRefusesBrokenChains(c.mac, d.keys.auditKey, c.auditKeyOf(e.successor), d.disk.log);
    hide RekeyChain;
  }

  lemma StuckStep(c: Crypto, x: World, e: Event, p: SecretPath, id: Id, v: Version, sealed: SealedVersion)
    requires Stuck(c, x, p, id, v, sealed)
    ensures var x' := Step(c, x, e);
      Stuck(c, x', p, id, v, sealed) && x'.daemon.keys == x.daemon.keys
  {
    hide Verify, Holds, RekeyStep, RestartStep, WriteStep;
    if e.Rekey? {
      BrokenRefusesRekey(c, x.daemon, e);
    } else if e.Restart? {
      StuckRestart(c, x, e, p, id, v, sealed);
    } else {
      hide Step, Logged, LeavesAlone, EntryOf, Unrecorded, UnsealMaster;
      StepHolds(c, x, e, p, id, v, sealed);
      StepRecords(c, x, e);
      if !LeavesAlone(x.daemon, e) {
        var (d, entry) := (Unrecorded(c, x, e).daemon, EntryOf(x.daemon, e));
        BreakSurvivesLogging(c, x.daemon.keys.auditKey, d, entry);
        LoggedKeepsTheRest(c, d, entry);
      }
    }
  }

  lemma {:induction false} StuckRun(
    c: Crypto, x: World, events: seq<Event>, p: SecretPath, id: Id, v: Version, sealed: SealedVersion)
    requires Stuck(c, x, p, id, v, sealed)
    ensures var x' := Run(c, x, events);
      Stuck(c, x', p, id, v, sealed) && x'.daemon.keys == x.daemon.keys
    decreases |events|
  {
    hide Stuck, Step;
    if events != [] {
      StuckStep(c, x, events[0], p, id, v, sealed);
      StuckRun(c, Step(c, x, events[0]), events[1..], p, id, v, sealed);
    }
  }

  lemma HeldIsUnreadable(
    d: State, p: SecretPath, v: Version, selector: Selector,
    master: Key32, generation: U32, b: Binding, plaintext: Bytes, rnd: Fresh)
    requires b.version == v && d.keys.master != master
    requires Holds(d.disk.secrets, p, b.secretId, v, Seal(master, generation, b, plaintext, rnd))
    ensures var r := ReadValue(d, p, selector);
      && (r.Ok? ==> r.value.0 != v)
      && (selector == Exact(v) ==> r.Err?)
  {
    hide Seal;
    OpensOnlyInItsSlot(master, generation, b, plaintext, rnd, d.keys.master, b);
    hide Open;
  }

  lemma {:induction false} RunConcat(c: Crypto, x: World, a: seq<Event>, b: seq<Event>)
    ensures Run(c, x, a + b) == Run(c, Run(c, x, a), b)
    decreases |a|
  {
    hide Step;
    if a == [] {
      assert a + b == b;
    } else {
      assert (a + b)[1..] == a[1..] + b;
      RunConcat(c, Step(c, x, a[0]), a[1..], b);
    }
  }

  lemma {:induction false} IdleRun(c: Crypto, x: World, events: seq<Event>)
    requires AllOrdinary(events) && AllLeftAlone(x.daemon, events)
    ensures Run(c, x, events) == x
    decreases |events|
  {
    hide Step, LeavesAlone;
    if events != [] {
      StepRecords(c, x, events[0]);
      IdleRun(c, x, events[1..]);
    }
  }

  /** Ordinary events leave the keys in memory and on disk as they are. */
  lemma {:induction false} OrdinaryRunKeepsKeys(c: Crypto, x: World, events: seq<Event>)
    requires AllOrdinary(events)
    ensures var (d, d') := (x.daemon, Run(c, x, events).daemon);
      d'.keys == d.keys && d'.kek == d.kek && d'.disk.sealedMaster == d.disk.sealedMaster
    decreases |events|
  {
    hide Step, LeavesAlone, EntryOf, Unrecorded, Logged;
    if events != [] {
      StepRecords(c, x, events[0]);
      if !LeavesAlone(x.daemon, events[0]) {
        LoggedKeepsTheRest(c, Unrecorded(c, x, events[0]).daemon, EntryOf(x.daemon, events[0]));
      }
      OrdinaryRunKeepsKeys(c, Step(c, x, events[0]), events[1..]);
    }
  }

  lemma FirstTellsApart(c: Crypto, key: Key32, d: State, events: seq<Event>)
    requires AllOrdinary(events) && KeysTellApart(c, key, d, events) && events != [] && !LeavesAlone(d, events[0])
    ensures d.keys.auditKey != key
  {
    hide LeavesAlone, EntryOf, AuditEntries.Canonical, Links, HashChain.TailOf;
    var input := HashChain.TailOf(Links(d.disk.log.rows)) + AuditEntries.Canonical(EntryOf(d, events[0]));
    assert c.mac(d.keys.auditKey, input) != c.mac(key, input);
  }

  lemma {:induction false} ToldApartKeysDiffer(c: Crypto, key: Key32, d: State, events: seq<Event>)
    requires AllOrdinary(events) && KeysTellApart(c, key, d, events) && !AllLeftAlone(d, events)
    ensures d.keys.auditKey != key
    decreases |events|
  {
    hide LeavesAlone, KeysTellApart;
    if LeavesAlone(d, events[0]) {
      LaterEventsTellApart(c, key, d, events);
      assert events == [events[0]] + events[1..];
      ToldApartKeysDiffer(c, key, d, events[1..]);
    } else {
      FirstTellsApart(c, key, d, events);
    }
  }

  lemma WrittenIsHeld(c: Crypto, x: World, e: Event)
    requires e.Write? && BeginWrite(x.daemon.disk.secrets, e.path, e.newId).Ok?
    ensures var (k, slot) := (x.daemon.keys, BeginWrite(x.daemon.disk.secrets, e.path, e.newId).value);
      var sealed := Seal(k.master, k.generation, SlotBinding(slot), e.plaintext, e.rnd);
      && Holds(WriteStep(c, x, e).daemon.disk.secrets, e.path, slot.row.id, slot.version, sealed)
      && (e.path, slot.version) in WriteStep(c, x, e).written
      && WriteStep(c, x, e).written[(e.path, slot.version)] == e.plaintext
  {
    hide Logged, Seal, TagTables.AddTags;
    SlotPath(x.daemon.disk.secrets, e.path, e.newId);
    hide BeginWrite;
    forall d, entry { LoggedHolds(c, d, entry); }
  }

  /** The window with a write in it: its log is broken under the successor's key, and the keys are not the same. */
  lemma WindowWithWriteBreaks(c: Crypto, w: World, e: Event, before: seq<Event>, write: Event)
    requires Coherent(c, w) && Rotates(w, e) && |w.daemon.disk.log.rows| < I64_MAX
    requires RekeyChain(c.mac, w.daemon.keys.auditKey, c.auditKeyOf(e.successor), w.daemon.disk.log).Ok?
    requires RotateAll(RotorFor(w.daemon, e), w.daemon.disk.secrets).Some?
    requires write.Write? && AllOrdinary(before + [write])
    requires KeysTellApart(c, c.auditKeyOf(e.successor), InWindow(c, w, e).daemon, before + [write])
    requires BeginWrite(Run(c, InWindow(c, w, e), before).daemon.disk.secrets, write.path, write.newId).Ok?
    ensures Broken(c.mac, c.auditKeyOf(e.successor), Run(c, InWindow(c, w, e), before + [write]).daemon.disk.log)
    ensures w.daemon.keys.auditKey != c.auditKeyOf(e.successor)
  {
    hide Coherent, KeysTellApart, Verifies, Dense, RekeyChain, RotateAll, Broken, BeginWrite, InWindow, Run;
    var (x, events) := (InWindow(c, w, e), before + [write]);
    WindowLogVerifies(c, w, e);
    assert !AllLeftAlone(x.daemon, events) by {
      assert events[|before|] == write;
      if AllLeftAlone(x.daemon, events) {
        forall i | 0 <= i < |before| ensures Ordinary(before[i]) && LeavesAlone(x.daemon, before[i]) {
          assert events[i] == before[i];
        }
        IdleRun(c, x, before);
      }
    }
    ForeignRun(c, c.auditKeyOf(e.successor), x, events);
    ToldApartKeysDiffer(c, c.auditKeyOf(e.successor), x.daemon, events);
  }

  /**
   * A version written in the window, between whatever other events, never opens again: not after adoption and not
   * after any later run, because the log its entry broke refuses every further rotation.
   */
  lemma WindowWriteStaysLost(
    c: Crypto, w: World, e: Event, before: seq<Event>, write: Event, after: seq<Event>, later: seq<Event>)
    requires Coherent(c, w) && Rotates(w, e) && |w.daemon.disk.log.rows| < I64_MAX
    requires RekeyChain(c.mac, w.daemon.keys.auditKey, c.auditKeyOf(e.successor), w.daemon.disk.log).Ok?
    requires RotateAll(RotorFor(w.daemon, e), w.daemon.disk.secrets).Some?
    requires write.Write? && AllOrdinary(before + [write]) && AllOrdinary(after)
    requires KeysTellApart(c, c.auditKeyOf(e.successor), InWindow(c, w, e).daemon, before + [write])
    requires BeginWrite(Run(c, InWindow(c, w, e), before).daemon.disk.secrets, write.path, write.newId).Ok?
    ensures var v := BeginWrite(Run(c, InWindow(c, w, e), before).daemon.disk.secrets, write.path, write.newId).value.version;
      var wrote := Run(c, InWindow(c, w, e), before + [write]);
      var adopted := Adopting(c, w, e, Run(c, wrote, after));
      var d := Run(c, adopted, later).daemon;
      && (write.path, v) in wrote.written && wrote.written[(write.path, v)] == write.plaintext
      && d.keys == adopted.daemon.keys && Broken(c.mac, d.keys.auditKey, d.disk.log)
      && forall selector ::
           var r := ReadValue(d, write.path, selector);
           (r.Ok? ==> r.value.0 != v) && (selector == Exact(v) ==> r.Err?)
  {
    hide Coherent, KeysTellApart, RekeyChain, RotateAll, Broken, BeginWrite, Seal, Holds, ReadValue, Verify;
    var (x, events) := (InWindow(c, w, e), before + [write]);
    var x1 := Run(c, x, before);
    WindowWithWriteBreaks(c, w, e, before, write);
    MastersDiffer(c, w, e);
    forall i | 0 <= i < |before| ensures Ordinary(before[i]) {
      assert events[i] == before[i];
    }
    OrdinaryRunKeepsKeys(c, x, before);
    RunConcat(c, x, before, [write]);
    WriteAlone(c, x1, write);
    WrittenIsHeld(c, x1, write);
    var slot := BeginWrite(x1.daemon.disk.secrets, write.path, write.newId).value;
    var (k, b) := (x1.daemon.keys, SlotBinding(slot));
    var sealed := Seal(k.master, k.generation, b, write.plaintext, write.rnd);
    hide Run;
    var wrote := Run(c, x, events);
    OrdinaryRunKeepsKeys(c, x, events);
    OrdinaryRunKeepsKeys(c, wrote, after);
    RunHolds(c, wrote, after, write.path, b.secretId, b.version, sealed);
    StillBroken(c, c.auditKeyOf(e.successor), wrote, after);
    AdoptedKeysCoherent(c, w, e, Run(c, wrote, after));
    var adopted := Adopting(c, w, e, Run(c, wrote, after));
    StuckRun(c, adopted, later, write.path, b.secretId, b.version, sealed);
    forall selector {
      HeldIsUnreadable(Run(c, adopted, later).daemon, write.path, b.version, selector,
                       k.master, k.generation, b, write.plaintext, write.rnd);
    }
  }

  lemma StillBroken(c: Crypto, key: Key32, x: World, events: seq<Event>)
    requires AllOrdinary(events) && Broken(c.mac, key, x.daemon.disk.log)
    ensures Broken(c.mac, key, Run(c, x, events).daemon.disk.log)
  {
    hide Verify, Run;
    BrokenStaysBroken(c, key, x, events);
  }

  lemma WriteAlone(c: Crypto, x: World, e: Event)
    requires e.Write?
    ensures Run(c, x, [e]) == WriteStep(c, x, e)
  {
    hide WriteStep;
    assert Run(c, x, [e]) == Run(c, Step(c, x, e), []);
  }

  lemma MastersDiffer(c: Crypto, w: World, e: Event)
    requires Coherent(c, w) && e.Rekey? && w.daemon.keys.auditKey != c.auditKeyOf(e.successor)
    ensures w.daemon.keys.master != e.successor
  {
    hide SecretsCoherent, TagsCoherent, LogCoherent, UnsealMaster;
  }

  lemma AdoptedKeysCoherent(c: Crypto, w: World, e: Event, x: World)
    requires Rotates(w, e)
    requires RekeyChain(c.mac, w.daemon.keys.auditKey, c.auditKeyOf(e.successor), w.daemon.disk.log).Ok?
    requires RotateAll(RotorFor(w.daemon, e), w.daemon.disk.secrets).Some?
    requires var d := InWindow(c, w, e).daemon;
      x.daemon.kek == d.kek && x.daemon.disk.sealedMaster == d.disk.sealedMaster
    ensures KeysCoherent(c, Adopting(c, w, e, x).daemon)
  {
    hide RekeyChain, RotateAll, UnsealMaster, SealMaster;
    BoundaryKeysCoherent(c, w.daemon, e);
  }

  /** While the window is open nothing that was stored before the rotation can be read. */
  lemma WindowReadsFail(c: Crypto, w: World, e: Event, path: SecretPath, selector: Selector)
    requires Coherent(c, w) && Rotates(w, e) && e.successor != w.daemon.keys.master
    requires RekeyChain(c.mac, w.daemon.keys.auditKey, c.auditKeyOf(e.successor), w.daemon.disk.log).Ok?
    requires RotateAll(RotorFor(w.daemon, e), w.daemon.disk.secrets).Some?
    ensures ReadValue(InWindow(c, w, e).daemon, path, selector).Err?
  {
    hide RekeyChain, KeysCoherent, TagsCoherent, LogCoherent, RotateAll, Open, StoreOk, Readable;
    var (r, before) := (RotorFor(w.daemon, e), w.daemon.disk.secrets);
    var d := InWindow(c, w, e).daemon;
    var stored := ReadVersion(d.disk.secrets, path, selector);
    if stored.Ok? {
      var v := stored.value.version;
      RotationTouchesOnlyWraps(r, before);
      RetiredKeyOpensNothing(r, before, w.written, path, v);
    }
  }
}
