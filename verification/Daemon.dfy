/** Runs of the daemon: every handler as one step over keys, store and audit log. */
module Daemon {
  import opened ByteStrings
  import opened Paths
  import opened Envelope
  import opened SecretTables
  import opened Rotation
  import TagTables
  import AuditEntries
  import HashChain
  import opened TamperEvidence
  import opened AuditLog

  /** The keyed hash of the chain and the derivation of its key; nothing is assumed of either. */
  datatype Crypto = Crypto(mac: Mac, auditKeyOf: Key32 -> Key32)

  /** The unsealed key material held in memory. */
  datatype KeyMaterial = KeyMaterial(master: Key32, auditKey: Key32, generation: U32)

  /** Everything in the database file. */
  datatype Disk = Disk(sealedMaster: Option<SealedMaster>, secrets: Secrets, tags: TagTables.Tables, log: Log)

  /** A running daemon: its key-encryption key, its keys in memory, its store. */
  datatype State = State(kek: Key32, keys: KeyMaterial, disk: Disk)

  /** A daemon together with what was ever written, which only the specification knows. */
  datatype World = World(daemon: State, written: Written)

  /** What an audit entry records about the caller. */
  datatype Caller = Caller(now: I64, prefix: Text, uid: U32, pid: U32)

  datatype Event =
    | Refused(caller: Caller, about: Option<SecretPath>, detail: Text)
    | Write(caller: Caller, path: SecretPath, newId: Id, plaintext: Bytes, rnd: Fresh, meta: Meta, tags: seq<TagTables.Tag>)
    | Read(caller: Caller, path: SecretPath, selector: Selector)
    | RollBack(caller: Caller, path: SecretPath, to: Version)
    | Delete(caller: Caller, path: SecretPath, selector: Selector, mode: DeleteMode)
    | AddTags(caller: Caller, path: SecretPath, tags: seq<TagTables.Tag>)
    | RemoveTags(caller: Caller, path: SecretPath, selectors: seq<TagTables.TagSelector>)
    | ResolveBatch(caller: Caller, targets: seq<(SecretPath, Selector)>)
    | Observe(caller: Caller, action: AuditEntries.Action, about: Option<SecretPath>)
    | Rekey(caller: Caller, successor: Key32, sealNonce: Nonce, nonces: Nonces)
    | Restart(now: I64, uid: U32)

  // ----- auditing -----

  function PathText(path: SecretPath): (r: Text)
    ensures |r| == |path| && forall i :: 0 <= i < |path| ==> r[i] == path[i] as int
  {
    PathChars(path);
    Ascii(path)
  }

  function OptPathText(path: Option<SecretPath>): Option<Text> {
    match path
    case Some(p) => Some(PathText(p))
    case None => None
  }

  function RecordEntry(c: Caller, action: AuditEntries.Action, path: Option<SecretPath>, version: Option<Version>)
    : AuditEntries.Entry
  {
    AuditEntries.Entry(c.now, Some(c.prefix), Some(c.uid), Some(c.pid), action, OptPathText(path), version,
                       AuditEntries.Success, None)
  }

  function RefusalEntry(c: Caller, path: Option<SecretPath>, detail: Text): AuditEntries.Entry {
    AuditEntries.Entry(c.now, None, Some(c.uid), Some(c.pid), AuditEntries.AuthFailure, OptPathText(path), None,
                       AuditEntries.Denied, Some(detail))
  }

  function UnsealEntry(now: I64, uid: U32): AuditEntries.Entry {
    AuditEntries.Entry(now, None, Some(uid), None, AuditEntries.Unseal, None, None, AuditEntries.Success, None)
  }

  /** An append under the audit key in memory; if it fails the handler reports an error and the log stays. */
  function Logged(c: Crypto, d: State, e: AuditEntries.Entry): State {
    match Append(c.mac, d.keys.auditKey, d.disk.log, e)
    case Ok(log) => d.(disk := d.disk.(log := log))
    case Err(_) => d
  }

  // ----- handlers -----

  ghost function WriteStep(c: Crypto, w: World, e: Event): World
    requires e.Write?
  {
    var (d, disk) := (w.daemon, w.daemon.disk);
    match BeginWrite(disk.secrets, e.path, e.newId)
    case Err(_) => w
    case Ok(slot) =>
      var sealed := Seal(d.keys.master, d.keys.generation, SlotBinding(slot), e.plaintext, e.rnd);
      var disk' := disk.(
        secrets := Commit(disk.secrets, slot, sealed, e.meta),
        tags := if e.tags == [] then disk.tags else TagTables.AddTags(disk.tags, slot.row.id, e.tags));
      World(Logged(c, d.(disk := disk'), RecordEntry(e.caller, AuditEntries.Write, Some(e.path), Some(slot.version))),
            w.written[(e.path, slot.version) := e.plaintext])
  }

  /** `read_version` and then `open`: the value handed to the caller, or why there is none. */
  function ReadValue(d: State, path: SecretPath, selector: Selector): Result<(Version, Bytes), StoreError> {
    match ReadVersion(d.disk.secrets, path, selector)
    case Err(error) => Err(error)
    case Ok(stored) =>
      match Open(stored.sealed, d.keys.master, stored.binding)
      case Err(_) => Err(StoreError.Crypto)
      case Ok(plaintext) => Ok((stored.version, plaintext))
  }

  predicate AllReadable(d: State, targets: seq<(SecretPath, Selector)>) {
    forall i :: 0 <= i < |targets| ==> ReadValue(d, targets[i].0, targets[i].1).Ok?
  }

  /** The transactions of a rotation in order, and the hand-over to memory. */
  datatype Boundary = Before | ChainCommitted | StoreCommitted | Adopted

  function RotorFor(d: State, e: Event): Rotor
    requires e.Rekey? && d.keys.generation + 1 < U32_LIMIT
  {
    Rotor(d.keys.master, e.successor, d.keys.generation + 1, e.nonces)
  }

  /** The daemon as it stands at a commit boundary of a rotation whose steps so far succeeded. */
  function AtBoundary(c: Crypto, d: State, e: Event, b: Boundary): State
    requires e.Rekey? && d.keys.generation + 1 < U32_LIMIT
    requires RekeyChain(c.mac, d.keys.auditKey, c.auditKeyOf(e.successor), d.disk.log).Ok?
    requires RotateAll(RotorFor(d, e), d.disk.secrets).Some?
  {
    var generation := d.keys.generation + 1;
    var chain := d.(disk := d.disk.(
      log := RekeyChain(c.mac, d.keys.auditKey, c.auditKeyOf(e.successor), d.disk.log).value));
    var stored := chain.(disk := chain.disk.(
      secrets := RotateAll(RotorFor(d, e), d.disk.secrets).value,
      sealedMaster := Some(SealMaster(d.kek, e.successor, generation, e.sealNonce))));
    match b
    case Before => d
    case ChainCommitted => chain
    case StoreCommitted => stored
    case Adopted => stored.(keys := KeyMaterial(e.successor, c.auditKeyOf(e.successor), generation))
  }

  function RekeyStep(c: Crypto, d: State, e: Event): State
    requires e.Rekey?
  {
    if d.keys.generation + 1 == U32_LIMIT then d
    else
      match RekeyChain(c.mac, d.keys.auditKey, c.auditKeyOf(e.successor), d.disk.log)
      case Err(_) => d
      case Ok(log) =>
        if RotateAll(RotorFor(d, e), d.disk.secrets).None? then d.(disk := d.disk.(log := log))
        else Logged(c, AtBoundary(c, d, e, Adopted), RecordEntry(e.caller, AuditEntries.Rekey, None, None))
  }

  function RestartStep(c: Crypto, d: State, e: Event): State
    requires e.Restart?
  {
    if d.disk.sealedMaster.None? then d
    else
      match UnsealMaster(d.kek, d.disk.sealedMaster.value)
      case Err(_) => d
      case Ok(master) =>
        var keys := KeyMaterial(master, c.auditKeyOf(master), d.disk.sealedMaster.value.generation);
        Logged(c, d.(keys := keys), UnsealEntry(e.now, e.uid))
  }

  ghost function Step(c: Crypto, w: World, e: Event): World {
    var (d, disk) := (w.daemon, w.daemon.disk);
    match e
    case Refused(caller, path, detail) => w.(daemon := Logged(c, d, RefusalEntry(caller, path, detail)))
    case Write(_, _, _, _, _, _, _) => WriteStep(c, w, e)
    case Read(caller, path, selector) =>
      (match ReadValue(d, path, selector)
       case Err(_) => w
       case Ok((v, _)) => w.(daemon := Logged(c, d, RecordEntry(caller, AuditEntries.Read, Some(path), Some(v)))))
    case RollBack(caller, path, to) =>
      (match Rollback(disk.secrets, path, to)
       case Err(_) => w
       case Ok(secrets) =>
         w.(daemon := Logged(c, d.(disk := disk.(secrets := secrets)),
                             RecordEntry(caller, AuditEntries.Rollback, Some(path), Some(to)))))
    case Delete(caller, path, selector, mode) =>
      (match DeleteVersion(disk.secrets, path, selector, mode)
       case Err(_) => w
       case Ok((secrets, v)) =>
         w.(daemon := Logged(c, d.(disk := disk.(secrets := secrets)),
                             RecordEntry(caller, AuditEntries.Delete, Some(path), Some(v)))))
    case AddTags(caller, path, tags) =>
      if path !in disk.secrets then w
      else
        w.(daemon := Logged(c, d.(disk := disk.(tags := TagTables.AddTags(disk.tags, disk.secrets[path].id, tags))),
                            RecordEntry(caller, AuditEntries.Tag, Some(path), None)))
    case RemoveTags(caller, path, selectors) =>
      if path !in disk.secrets then w
      else
        w.(daemon := Logged(c, d.(disk := disk.(tags := TagTables.RemoveTags(disk.tags, disk.secrets[path].id, selectors))),
                            RecordEntry(caller, AuditEntries.Tag, Some(path), None)))
    case ResolveBatch(caller, targets) =>
      if AllReadable(d, targets) then w.(daemon := Logged(c, d, RecordEntry(caller, AuditEntries.Resolve, None, None)))
      else w
    case Observe(caller, action, path) => w.(daemon := Logged(c, d, RecordEntry(caller, action, path, None)))
    case Rekey(_, _, _, _) => w.(daemon := RekeyStep(c, d, e))
    case Restart(_, _) => w.(daemon := RestartStep(c, d, e))
  }

  ghost function Run(c: Crypto, w: World, events: seq<Event>): World
    decreases |events|
  {
    if events == [] then w else Run(c, Step(c, w, events[0]), events[1..])
  }

  /** `init`: a sealed master key at generation 1, no secrets, and the first audit entry. */
  function Initial(c: Crypto, kek: Key32, master: Key32, nonce: Nonce, now: I64): World {
    var d := State(kek, KeyMaterial(master, c.auditKeyOf(master), 1),
                   Disk(Some(SealMaster(kek, master, 1, nonce)), map[], TagTables.NO_TAGS, EMPTY_LOG));
    World(Logged(c, d, AuditEntries.Entry(now, None, None, None, AuditEntries.Init, None, None, AuditEntries.Success, None)),
          map[])
  }

  // ----- coherence -----

  /** Memory agrees with the sealed master key on disk. */
  predicate KeysCoherent(c: Crypto, d: State) {
    && d.disk.sealedMaster.Some?
    && UnsealMaster(d.kek, d.disk.sealedMaster.value) == Ok(d.keys.master)
    && d.disk.sealedMaster.value.generation == d.keys.generation
    && d.keys.auditKey == c.auditKeyOf(d.keys.master)
  }

  /** The store is sound and every version not destroyed opens to what was written. */
  ghost predicate SecretsCoherent(secrets: Secrets, master: Key32, written: Written) {
    && StoreOk(secrets)
    && Readable(secrets, master, written)
    && forall k :: k in written ==> k.0 in secrets && k.1 in secrets[k.0].versions
  }

  ghost predicate TagsCoherent(disk: Disk) {
    && TagTables.TagsOk(disk.tags)
    && forall l :: l in disk.tags.links ==> IdTaken(disk.secrets, l.0)
  }

  predicate LogCoherent(c: Crypto, d: State) {
    Verifies(c.mac, d.keys.auditKey, d.disk.log) && Dense(d.disk.log)
  }

  ghost predicate Coherent(c: Crypto, w: World) {
    && KeysCoherent(c, w.daemon)
    && SecretsCoherent(w.daemon.disk.secrets, w.daemon.keys.master, w.written)
    && TagsCoherent(w.daemon.disk)
    && LogCoherent(c, w.daemon)
  }

  /** Nothing written is ever forgotten or rewritten, and every secret only moves on. */
  ghost predicate MovesOn(w: World, w': World) {
    && Evolves(w.daemon.disk.secrets, w'.daemon.disk.secrets)
    && forall k :: k in w.written ==> k in w'.written && w'.written[k] == w.written[k]
  }

  // ----- one step -----

  lemma LoggedKeepsLog(c: Crypto, d: State, e: AuditEntries.Entry)
    requires LogCoherent(c, d)
    ensures LogCoherent(c, Logged(c, d, e))
    ensures var d' := Logged(c, d, e);
      d'.kek == d.kek && d'.keys == d.keys && d'.disk == d.disk.(log := d'.disk.log)
  {
    hide Append, Verify;
    AppendAllKeepsValid(c.mac, d.keys.auditKey, d.disk.log, [e]);
    AppendOnce(c.mac, d.keys.auditKey, d.disk.log, e);
  }

  lemma AppendOnce(mac: Mac, key: Key32, log: Log, e: AuditEntries.Entry)
    ensures AppendAll(mac, key, log, [e]) == if Append(mac, key, log, e).Ok? then Append(mac, key, log, e).value else log
  {
  }

  /** Steps that only change tables other than the log, and then record. */
  lemma RecordedStep(c: Crypto, w: World, disk: Disk, written: Written, e: AuditEntries.Entry)
    requires Coherent(c, w)
    requires disk.sealedMaster == w.daemon.disk.sealedMaster && disk.log == w.daemon.disk.log
    requires SecretsCoherent(disk.secrets, w.daemon.keys.master, written) && TagsCoherent(disk)
    requires Evolves(w.daemon.disk.secrets, disk.secrets)
    requires forall k :: k in w.written ==> k in written && written[k] == w.written[k]
    ensures var w' := World(Logged(c, w.daemon.(disk := disk), e), written);
      Coherent(c, w') && MovesOn(w, w')
  {
    hide SecretsCoherent, LogCoherent, Evolves;
    var d := w.daemon.(disk := disk);
    assert LogCoherent(c, d) by {
      LogCoherentOnlyReads(c, w.daemon, d);
    }
    LoggedKeepsLog(c, d, e);
  }

  lemma LogCoherentOnlyReads(c: Crypto, d: State, d': State)
    requires LogCoherent(c, d) && d'.keys == d.keys && d'.disk.log == d.disk.log
    ensures LogCoherent(c, d')
  {
  }

  lemma WriteStepSound(c: Crypto, w: World, e: Event)
    requires e.Write? && Coherent(c, w)
    ensures Coherent(c, WriteStep(c, w, e)) && MovesOn(w, WriteStep(c, w, e))
  {
    hide LogCoherent, KeysCoherent, Seal, Commit, TagTables.AddTags, BeginWrite, Logged;
    var (d, disk) := (w.daemon, w.daemon.disk);
    var begun := BeginWrite(disk.secrets, e.path, e.newId);
    if begun.Err? {
      EvolvesReflexive(disk.secrets);
    } else {
      var slot := begun.value;
      var sealed := Seal(d.keys.master, d.keys.generation, SlotBinding(slot), e.plaintext, e.rnd);
      var secrets := Commit(disk.secrets, slot, sealed, e.meta);
      var written := w.written[(e.path, slot.version) := e.plaintext];
      SlotIsFresh(disk.secrets, e.path, e.newId);
      WriteKeepsStoreOk(disk.secrets, e.path, e.newId, sealed, e.meta);
      CommitKeepsReadable(disk.secrets, d.keys.master, w.written, slot, d.keys.generation, e.plaintext, e.rnd, e.meta);
      WrittenStaysKnown(disk.secrets, w.written, slot, sealed, e);
      var tags := if e.tags == [] then disk.tags else TagTables.AddTags(disk.tags, slot.row.id, e.tags);
      AddTagsStaysCoherent(disk, secrets, slot.row.id, e.tags);
      RecordedStep(c, w, disk.(secrets := secrets, tags := tags), written,
                   RecordEntry(e.caller, AuditEntries.Write, Some(e.path), Some(slot.version)));
    }
  }

  lemma SlotIsFresh(secrets: Secrets, path: SecretPath, newId: Id)
    requires StoreOk(secrets) && BeginWrite(secrets, path, newId).Ok?
    ensures var slot := BeginWrite(secrets, path, newId).value;
      && slot.path == path
      && (if path in secrets then slot.row == secrets[path] else slot.row.versions == map[])
      && slot.version !in slot.row.versions
      && forall sealed: SealedVersion, meta: Meta ::
           IdTaken(Commit(secrets, slot, sealed, meta), slot.row.id)
  {
    var slot := BeginWrite(secrets, path, newId).value;
    WriteVersionIsNew(secrets, path, newId);
    forall sealed: SealedVersion, meta: Meta ensures IdTaken(Commit(secrets, slot, sealed, meta), slot.row.id) {
      assert Commit(secrets, slot, sealed, meta)[path].id == slot.row.id;
    }
  }

  lemma WriteVersionIsNew(secrets: Secrets, path: SecretPath, newId: Id)
    requires StoreOk(secrets) && BeginWrite(secrets, path, newId).Ok?
    ensures BeginWrite(secrets, path, newId).value.version !in BeginWrite(secrets, path, newId).value.row.versions
  {
  }

  lemma WrittenStaysKnown(secrets: Secrets, written: Written, slot: Slot, sealed: SealedVersion, e: Event)
    requires e.Write? && slot.path == e.path
    requires if e.path in secrets then slot.row == secrets[e.path] else slot.row.versions == map[]
    requires slot.version !in slot.row.versions
    requires forall k :: k in written ==> k.0 in secrets && k.1 in secrets[k.0].versions
    ensures var (after, written') := (Commit(secrets, slot, sealed, e.meta), written[(e.path, slot.version) := e.plaintext]);
      && (forall k :: k in written' ==> k.0 in after && k.1 in after[k.0].versions)
      && (forall k :: k in written ==> k in written' && written'[k] == written[k])
  {
  }

  lemma AddTagsStaysCoherent(disk: Disk, secrets: Secrets, id: Id, tags: seq<TagTables.Tag>)
    requires TagsCoherent(disk) && Evolves(disk.secrets, secrets) && IdTaken(secrets, id)
    ensures TagsCoherent(disk.(secrets := secrets, tags := TagTables.AddTags(disk.tags, id, tags)))
    ensures TagsCoherent(disk.(secrets := secrets))
  {
    hide TagTables.TagsOk, TagTables.TagsOn;
    TagTables.AddTagsMeans(disk.tags, id, tags);
    TagTables.AddTagsLinks(disk.tags, id, tags);
    forall l | l in disk.tags.links ensures IdTaken(secrets, l.0) {
      var p :| p in disk.secrets && disk.secrets[p].id == l.0;
      assert secrets[p].id == l.0;
    }
  }

  lemma {:induction false} UnlinkAllLinks(t: TagTables.Tables, id: Id, selectors: seq<TagTables.TagSelector>)
    ensures TagTables.UnlinkAll(t, id, selectors).links <= t.links
    decreases |selectors|
  {
    if selectors != [] {
      UnlinkAllLinks(TagTables.Unlink(t, id, selectors[0]), id, selectors[1..]);
    }
  }

  lemma KeepsTagsCoherent(disk: Disk, secrets: Secrets)
    requires TagsCoherent(disk) && Evolves(disk.secrets, secrets)
    ensures TagsCoherent(disk.(secrets := secrets))
  {
  }

  lemma KeepsWrittenKnown(secrets: Secrets, after: Secrets, written: Written)
    requires Evolves(secrets, after)
    requires forall k :: k in written ==> k.0 in secrets && k.1 in secrets[k.0].versions
    ensures forall k :: k in written ==> k.0 in after && k.1 in after[k.0].versions
  {
  }

  lemma RollBackStepSound(c: Crypto, w: World, e: Event)
    requires e.RollBack? && Coherent(c, w)
    ensures Coherent(c, Step(c, w, e)) && MovesOn(w, Step(c, w, e))
  {
    hide LogCoherent, KeysCoherent, Logged, StoreOk, Readable, Evolves, TagsCoherent, Rollback;
    var (d, disk) := (w.daemon, w.daemon.disk);
    var r := Rollback(disk.secrets, e.path, e.to);
    if r.Err? {
      EvolvesReflexive(disk.secrets);
    } else {
      RollbackKeepsStoreOk(disk.secrets, e.path, e.to);
      RollbackKeepsReadable(disk.secrets, d.keys.master, w.written, e.path, e.to);
      KeepsTagsCoherent(disk, r.value);
      KeepsWrittenKnown(disk.secrets, r.value, w.written);
      RecordedStep(c, w, disk.(secrets := r.value), w.written,
                   RecordEntry(e.caller, AuditEntries.Rollback, Some(e.path), Some(e.to)));
    }
  }

  lemma DeleteStepSound(c: Crypto, w: World, e: Event)
    requires e.Delete? && Coherent(c, w)
    ensures Coherent(c, Step(c, w, e)) && MovesOn(w, Step(c, w, e))
  {
    hide LogCoherent, KeysCoherent, Logged, StoreOk, Readable, Evolves, TagsCoherent, DeleteVersion;
    var (d, disk) := (w.daemon, w.daemon.disk);
    var r := DeleteVersion(disk.secrets, e.path, e.selector, e.mode);
    if r.Err? {
      EvolvesReflexive(disk.secrets);
    } else {
      var (secrets, v) := r.value;
      DeleteKeepsStoreOk(disk.secrets, e.path, e.selector, e.mode);
      DeleteKeepsReadable(disk.secrets, d.keys.master, w.written, e.path, e.selector, e.mode);
      KeepsTagsCoherent(disk, secrets);
      KeepsWrittenKnown(disk.secrets, secrets, w.written);
      RecordedStep(c, w, disk.(secrets := secrets), w.written,
                   RecordEntry(e.caller, AuditEntries.Delete, Some(e.path), Some(v)));
    }
  }

  lemma TagStepSound(c: Crypto, w: World, e: Event)
    requires (e.AddTags? || e.RemoveTags?) && Coherent(c, w)
    ensures Coherent(c, Step(c, w, e)) && MovesOn(w, Step(c, w, e))
  {
    hide LogCoherent, KeysCoherent, Logged, StoreOk, Readable, Evolves, TagTables.TagsOk, TagTables.AddTags, TagTables.RemoveTags;
    var (d, disk) := (w.daemon, w.daemon.disk);
    EvolvesReflexive(disk.secrets);
    if e.path in disk.secrets {
      var id := disk.secrets[e.path].id;
      assert IdTaken(disk.secrets, id);
      var entry := RecordEntry(e.caller, AuditEntries.Tag, Some(e.path), None);
      if e.AddTags? {
        AddTagsStaysCoherent(disk, disk.secrets, id, e.tags);
        RecordedStep(c, w, disk.(tags := TagTables.AddTags(disk.tags, id, e.tags)), w.written, entry);
      } else {
        RemoveTagsStaysCoherent(disk, id, e.selectors);
        RecordedStep(c, w, disk.(tags := TagTables.RemoveTags(disk.tags, id, e.selectors)), w.written, entry);
      }
    }
  }

  lemma RemoveTagsStaysCoherent(disk: Disk, id: Id, selectors: seq<TagTables.TagSelector>)
    requires TagsCoherent(disk)
    ensures TagsCoherent(disk.(tags := TagTables.RemoveTags(disk.tags, id, selectors)))
  {
    TagTables.RemoveTagsMeans(disk.tags, id, selectors);
    UnlinkAllLinks(disk.tags, id, selectors);
    hide TagTables.TagsOk, TagTables.TagsOn;
  }

  /** A rotation that completes on its own: every transaction succeeds, and all of it is coherent again. */
  lemma RekeyStepSound(c: Crypto, w: World, e: Event)
    requires e.Rekey? && Coherent(c, w)
    ensures Coherent(c, Step(c, w, e)) && MovesOn(w, Step(c, w, e))
  {
    hide Logged, StoreOk, Readable, Evolves, RekeyChain, RotateAll, Verify, NextRowId;
    var d := w.daemon;
    if d.keys.generation + 1 == U32_LIMIT {
      EvolvesReflexive(d.disk.secrets);
    } else {
      RotationSucceeds(c, w, e);
      var d' := AtBoundary(c, d, e, Adopted);
      BoundaryKeysCoherent(c, d, e);
      KeepsTagsCoherent(d.disk, d'.disk.secrets);
      KeepsWrittenKnown(d.disk.secrets, d'.disk.secrets, w.written);
      LoggedKeepsLog(c, d', RecordEntry(e.caller, AuditEntries.Rekey, None, None));
    }
  }

  lemma BoundaryKeysCoherent(c: Crypto, d: State, e: Event)
    requires e.Rekey? && d.keys.generation + 1 < U32_LIMIT
    requires RekeyChain(c.mac, d.keys.auditKey, c.auditKeyOf(e.successor), d.disk.log).Ok?
    requires RotateAll(RotorFor(d, e), d.disk.secrets).Some?
    ensures KeysCoherent(c, AtBoundary(c, d, e, Adopted))
  {
    hide RekeyChain, RotateAll;
    var generation := d.keys.generation + 1;
    MasterUnsealsAtItsGeneration(d.kek, e.successor, generation, e.sealNonce, d.kek, generation);
  }

  lemma RotationSucceeds(c: Crypto, w: World, e: Event)
    requires e.Rekey? && Coherent(c, w) && w.daemon.keys.generation + 1 < U32_LIMIT
    ensures RekeyChain(c.mac, w.daemon.keys.auditKey, c.auditKeyOf(e.successor), w.daemon.disk.log).Ok?
    ensures RotateAll(RotorFor(w.daemon, e), w.daemon.disk.secrets).Some?
    ensures var (log, secrets) := (
        RekeyChain(c.mac, w.daemon.keys.auditKey, c.auditKeyOf(e.successor), w.daemon.disk.log).value,
        RotateAll(RotorFor(w.daemon, e), w.daemon.disk.secrets).value);
      && Verifies(c.mac, c.auditKeyOf(e.successor), log) && Dense(log)
      && |log.rows| == |w.daemon.disk.log.rows|
      && StoreOk(secrets) && Readable(secrets, e.successor, w.written)
      && Evolves(w.daemon.disk.secrets, secrets)
  {
    hide StoreOk, Readable, Evolves, RekeyChain, RotateAll, Verify, NextRowId;
    RekeyPreservesHistory(c.mac, w.daemon.keys.auditKey, c.auditKeyOf(e.successor), w.daemon.disk.log);
    RotationKeepsEverything(RotorFor(w.daemon, e), w.daemon.disk.secrets, w.written);
  }

  /** A restart recovers the very keys that were in memory. */
  lemma RestartStepSound(c: Crypto, w: World, e: Event)
    requires e.Restart? && Coherent(c, w)
    ensures Coherent(c, Step(c, w, e)) && MovesOn(w, Step(c, w, e))
    ensures Step(c, w, e).daemon.keys == w.daemon.keys
  {
    hide Logged, StoreOk, Readable, Evolves, LogCoherent, UnsealMaster, TagsCoherent;
    EvolvesReflexive(w.daemon.disk.secrets);
    LoggedKeepsLog(c, w.daemon, UnsealEntry(e.now, e.uid));
    RecordedStep(c, w, w.daemon.disk, w.written, UnsealEntry(e.now, e.uid));
  }

  lemma RecordOnlySound(c: Crypto, w: World, entry: AuditEntries.Entry)
    requires Coherent(c, w)
    ensures var w' := w.(daemon := Logged(c, w.daemon, entry)); Coherent(c, w') && MovesOn(w, w')
    ensures MovesOn(w, w)
  {
    hide Logged, StoreOk, Readable, Evolves, LogCoherent, KeysCoherent, TagsCoherent;
    EvolvesReflexive(w.daemon.disk.secrets);
    RecordedStep(c, w, w.daemon.disk, w.written, entry);
  }

  lemma StepSound(c: Crypto, w: World, e: Event)
    requires Coherent(c, w)
    ensures Coherent(c, Step(c, w, e)) && MovesOn(w, Step(c, w, e))
  {
    hide Logged, Coherent, MovesOn, WriteStep, RekeyStep, RestartStep, RecordEntry, RefusalEntry;
    match e {
      case Refused(caller, about, detail) => RecordOnlySound(c, w, RefusalEntry(caller, about, detail));
      case Write(_, _, _, _, _, _, _) => WriteStepSound(c, w, e);
      case Read(caller, path, selector) =>
        var r := ReadValue(w.daemon, path, selector);
        RecordOnlySound(c, w, RecordEntry(caller, AuditEntries.Read, Some(path), if r.Ok? then Some(r.value.0) else None));
      case RollBack(_, _, _) => RollBackStepSound(c, w, e);
      case Delete(_, _, _, _) => DeleteStepSound(c, w, e);
      case AddTags(_, _, _) => TagStepSound(c, w, e);
      case RemoveTags(_, _, _) => TagStepSound(c, w, e);
      case ResolveBatch(caller, _) => RecordOnlySound(c, w, RecordEntry(caller, AuditEntries.Resolve, None, None));
      case Observe(caller, action, about) => RecordOnlySound(c, w, RecordEntry(caller, action, about, None));
      case Rekey(_, _, _, _) => RekeyStepSound(c, w, e);
      case Restart(_, _) => RestartStepSound(c, w, e);
    }
  }

  lemma MovesOnTransitive(a: World, b: World, c: World)
    requires MovesOn(a, b) && MovesOn(b, c)
    ensures MovesOn(a, c)
  {
    EvolvesTransitive(a.daemon.disk.secrets, b.daemon.disk.secrets, c.daemon.disk.secrets);
    hide Evolves;
  }

  // ----- runs -----

  lemma InitialIsCoherent(c: Crypto, kek: Key32, master: Key32, nonce: Nonce, now: I64)
    ensures Coherent(c, Initial(c, kek, master, nonce, now))
  {
    hide Logged, Verify;
    MasterUnsealsAtItsGeneration(kek, master, 1, nonce, kek, 1);
    BuiltLogVerifies(c.mac, c.auditKeyOf(master), []);
    var d := State(kek, KeyMaterial(master, c.auditKeyOf(master), 1),
                   Disk(Some(SealMaster(kek, master, 1, nonce)), map[], TagTables.NO_TAGS, EMPTY_LOG));
    LoggedKeepsLog(c, d, AuditEntries.Entry(now, None, None, None, AuditEntries.Init, None, None, AuditEntries.Success, None));
  }

  /** Over any run: keys, store, plaintexts, tags and audit log stay coherent, and history only moves on. */
  lemma {:induction false} RunsStayCoherent(c: Crypto, w: World, events: seq<Event>)
    requires Coherent(c, w)
    ensures Coherent(c, Run(c, w, events)) && MovesOn(w, Run(c, w, events))
    decreases |events|
  {
    hide Coherent, MovesOn, Step;
    if events == [] {
      MovesNowhere(w);
    } else {
      StepSound(c, w, events[0]);
      RunsStayCoherent(c, Step(c, w, events[0]), events[1..]);
      MovesOnTransitive(w, Step(c, w, events[0]), Run(c, w, events));
    }
  }

  lemma MovesNowhere(w: World)
    ensures MovesOn(w, w)
  {
  }

  /** What a caller sees of a coherent daemon: a granted read yields what was written, or a plain not-found. */
  lemma ReadsAreFaithful(c: Crypto, w: World, path: SecretPath, selector: Selector)
    requires Coherent(c, w)
    ensures match ReadValue(w.daemon, path, selector)
      case Ok((v, plaintext)) => (path, v) in w.written && w.written[(path, v)] == plaintext
      case Err(error) => error == NotFound
  {
    hide LogCoherent, KeysCoherent, Readable, StoreOk;
    var (secrets, master) := (w.daemon.disk.secrets, w.daemon.keys.master);
    ReadsWhatWasWritten(secrets, master, w.written, path, selector);
    match selector {
      case Exact(v) => ExactIsReadable(secrets, path, v);
      case Current => if path in secrets { CurrentIsReadable(secrets, path); }
    }
  }

  // ----- a rotation cut short, or not alone -----

  /** A rotation that can start: the generation number has a successor. */
  predicate Rotates(w: World, e: Event) {
    e.Rekey? && w.daemon.keys.generation + 1 < U32_LIMIT
  }

  /** The master key the disk records at a boundary: what a restart would unseal. */
  function RecordedMaster(w: World, e: Event, b: Boundary): Key32
    requires e.Rekey?
  {
    if b == Before || b == ChainCommitted then w.daemon.keys.master else e.successor
  }

  /**
   * At every commit boundary of a rotation the sealed master key on disk unseals, and opens every
   * version not destroyed to its original plaintext; nothing but the wraps has changed.
   */
  lemma SecretsHoldAtEveryBoundary(c: Crypto, w: World, e: Event, b: Boundary)
    requires Coherent(c, w) && Rotates(w, e)
    ensures RekeyChain(c.mac, w.daemon.keys.auditKey, c.auditKeyOf(e.successor), w.daemon.disk.log).Ok?
    ensures RotateAll(RotorFor(w.daemon, e), w.daemon.disk.secrets).Some?
    ensures var (d, m) := (AtBoundary(c, w.daemon, e, b), RecordedMaster(w, e, b));
      && d.disk.sealedMaster.Some?
      && UnsealMaster(d.kek, d.disk.sealedMaster.value) == Ok(m)
      && StoreOk(d.disk.secrets) && Readable(d.disk.secrets, m, w.written)
      && OnlyWrapsDiffer(w.daemon.disk.secrets, d.disk.secrets)
  {
    hide StoreOk, Readable, RekeyChain, RotateAll, Verify, NextRowId, Evolves;
    RotationSucceeds(c, w, e);
    RotationTouchesOnlyWraps(RotorFor(w.daemon, e), w.daemon.disk.secrets);
    BoundaryKeysCoherent(c, w.daemon, e);
  }

  /**
   * The chain, unlike the secrets, is out of step at one boundary. Stopped between its two commits, a
   * rotation leaves a log that verifies under the recorded master key's audit key exactly when that key
   * and the successor's agree on every link and on the anchor.
   */
  lemma ChainHoldsExceptBetweenCommits(c: Crypto, w: World, e: Event, b: Boundary)
    requires Coherent(c, w) && Rotates(w, e)
    requires RekeyChain(c.mac, w.daemon.keys.auditKey, c.auditKeyOf(e.successor), w.daemon.disk.log).Ok?
    requires RotateAll(RotorFor(w.daemon, e), w.daemon.disk.secrets).Some?
    ensures var (log, k) := (AtBoundary(c, w.daemon, e, b).disk.log, c.auditKeyOf(RecordedMaster(w, e, b)));
      Verifies(c.mac, k, log) <==>
        || b != ChainCommitted
        || (&& KeysAgreeOnLinks(c.mac, c.auditKeyOf(e.successor), k, Links(log.rows))
            && (log.rows != [] ==>
                  var input := HashChain.AnchorInput(HashChain.Anchor(|log.rows|, HashChain.TailOf(Links(log.rows))));
                  c.mac(c.auditKeyOf(e.successor), input) == c.mac(k, input)))
  {
    hide StoreOk, Readable, RekeyChain, RotateAll, NextRowId, Evolves, HashChain.VerifyLinks;
    RotationSucceeds(c, w, e);
    var log := AtBoundary(c, w.daemon, e, b).disk.log;
    if b == ChainCommitted {
      ValidUnderTwoKeys(c.mac, c.auditKeyOf(e.successor), w.daemon.keys.auditKey, Links(log.rows), log.anchor);
    }
  }

  /** Stopped there, the recorded key blames the first entry, now and after any further appends, and refuses to rotate. */
  lemma CutShortRotationStaysBroken(c: Crypto, w: World, e: Event, more: seq<AuditEntries.Entry>, again: Key32)
    requires Coherent(c, w) && e.Rekey? && w.daemon.disk.log.rows != []
    ensures LinkOf(w.daemon.disk.log.rows[0]).Link?
    ensures var (k, k') := (w.daemon.keys.auditKey, c.auditKeyOf(e.successor));
      var (r, input) := (RekeyChain(c.mac, k, k', w.daemon.disk.log),
                         HashChain.Genesis() + LinkOf(w.daemon.disk.log.rows[0]).content);
      && r.Ok?
      && (c.mac(k, input) != c.mac(k', input) ==>
            var log := AppendAll(c.mac, k, r.value, more);
            && Verify(c.mac, k, log) == Ok(HashChain.Modified(1, c.mac(k', input), c.mac(k, input)))
            && RekeyChain(c.mac, k, again, log).Err?)
  {
    hide StoreOk, Readable, RekeyChain, Verify, NextRowId, Evolves, LinkOf, AppendAll;
    var (k, k') := (w.daemon.keys.auditKey, c.auditKeyOf(e.successor));
    RetiredKeyRejects(c.mac, k, k', w.daemon.disk.log);
    var log := RekeyChain(c.mac, k, k', w.daemon.disk.log).value;
    if c.mac(k, HashChain.Genesis() + LinkOf(w.daemon.disk.log.rows[0]).content)
       != c.mac(k', HashChain.Genesis() + LinkOf(w.daemon.disk.log.rows[0]).content) {
      BreaksSurviveAppends(c.mac, k, log, more);
      RekeyRefusesBrokenChains(c.mac, k, again, AppendAll(c.mac, k, log, more));
    }
  }

  /** The locks are released before the new key is adopted: a state with the store rotated and memory not. */
  function Adopt(c: Crypto, d: State, e: Event): State
    requires e.Rekey? && d.keys.generation + 1 < U32_LIMIT
  {
    d.(keys := KeyMaterial(e.successor, c.auditKeyOf(e.successor), d.keys.generation + 1))
  }

  /** With nothing in between, adopting after the store has committed completes a coherent rotation. */
  lemma QuietWindowIsCoherent(c: Crypto, w: World, e: Event)
    requires Coherent(c, w) && Rotates(w, e)
    requires RekeyChain(c.mac, w.daemon.keys.auditKey, c.auditKeyOf(e.successor), w.daemon.disk.log).Ok?
    requires RotateAll(RotorFor(w.daemon, e), w.daemon.disk.secrets).Some?
    ensures Coherent(c, w.(daemon := Adopt(c, AtBoundary(c, w.daemon, e, StoreCommitted), e)))
  {
    hide Logged, StoreOk, Readable, Evolves, RekeyChain, RotateAll, Verify, NextRowId;
    RotationSucceeds(c, w, e);
    BoundaryKeysCoherent(c, w.daemon, e);
    var d' := AtBoundary(c, w.daemon, e, Adopted);
    KeepsTagsCoherent(w.daemon.disk, d'.disk.secrets);
    KeepsWrittenKnown(w.daemon.disk.secrets, d'.disk.secrets, w.written);
  }

  /** A version written with the old key still in memory does not open once the successor is adopted. */
  lemma WindowWriteIsLost(c: Crypto, stored: World, rekey: Event, write: Event)
    requires Rotates(stored, rekey) && write.Write? && rekey.successor != stored.daemon.keys.master
    requires BeginWrite(stored.daemon.disk.secrets, write.path, write.newId).Ok?
    ensures var v := BeginWrite(stored.daemon.disk.secrets, write.path, write.newId).value.version;
      ReadValue(Adopt(c, WriteStep(c, stored, write).daemon, rekey), write.path, Exact(v)) == Err(StoreError.Crypto)
  {
    hide BeginWrite, TagTables.AddTags, Append, Seal;
    var d := stored.daemon;
    var slot := BeginWrite(d.disk.secrets, write.path, write.newId).value;
    SlotPath(d.disk.secrets, write.path, write.newId);
    var b := SlotBinding(slot);
    var sealed := Seal(d.keys.master, d.keys.generation, b, write.plaintext, write.rnd);
    OpensOnlyInItsSlot(d.keys.master, d.keys.generation, b, write.plaintext, write.rnd, rekey.successor, b);
    var secrets := Commit(d.disk.secrets, slot, sealed, write.meta);
    assert secrets[write.path].versions[slot.version] == RowOfSealed(sealed, write.meta);
    assert ReadVersion(secrets, write.path, Exact(slot.version)) == Ok(StoredVersion(b, sealed, slot.version));
  }

  lemma SlotPath(secrets: Secrets, path: SecretPath, newId: Id)
    requires BeginWrite(secrets, path, newId).Ok?
    ensures BeginWrite(secrets, path, newId).value.path == path
  {
  }

  /**
   * An entry recorded under the old audit key in that window is blamed once the successor's key verifies: the log
   * is still valid exactly when both keys hash the entry and the new anchor alike.
   */
  lemma WindowEntryIsBlamed(c: Crypto, w: World, e: Event, entry: AuditEntries.Entry)
    requires Coherent(c, w) && Rotates(w, e) && |w.daemon.disk.log.rows| < I64_MAX
    requires RekeyChain(c.mac, w.daemon.keys.auditKey, c.auditKeyOf(e.successor), w.daemon.disk.log).Ok?
    requires RotateAll(RotorFor(w.daemon, e), w.daemon.disk.secrets).Some?
    ensures var stored := AtBoundary(c, w.daemon, e, StoreCommitted);
      var (k, k', log) := (w.daemon.keys.auditKey, c.auditKeyOf(e.successor), stored.disk.log);
      var input := HashChain.TailOf(Links(log.rows)) + AuditEntries.Canonical(entry);
      c.mac(k, input) != c.mac(k', input) ==>
        Verify(c.mac, k', Adopt(c, Logged(c, stored, entry), e).disk.log)
        == Ok(HashChain.Modified(|log.rows| + 1, c.mac(k, input), c.mac(k', input)))
    ensures var stored := AtBoundary(c, w.daemon, e, StoreCommitted);
      var (k, k', log) := (w.daemon.keys.auditKey, c.auditKeyOf(e.successor), stored.disk.log);
      var input := HashChain.TailOf(Links(log.rows)) + AuditEntries.Canonical(entry);
      var anchor := HashChain.AnchorInput(HashChain.Anchor(|log.rows| + 1, c.mac(k, input)));
      HashChain.IsValid(Verify(c.mac, k', Adopt(c, Logged(c, stored, entry), e).disk.log)) <==>
        c.mac(k, input) == c.mac(k', input) && c.mac(k, anchor) == c.mac(k', anchor)
  {
    hide StoreOk, Readable, RekeyChain, RotateAll, Evolves, AuditEntries.Canonical, Append;
    hide HashChain.VerifyLinks, Verify, Links, HashChain.TailOf, Coherent, Dense, Verifies;
    RotationSucceeds(c, w, e);
    var stored := AtBoundary(c, w.daemon, e, StoreCommitted);
    AppendUnderOtherKey(c.mac, c.auditKeyOf(e.successor), w.daemon.keys.auditKey, stored.disk.log, entry);
  }
}
