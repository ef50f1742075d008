/** What each event changes for those who read: values, tags, and the keys in memory and on disk. */
module Effects {
  import opened ByteStrings
  import opened Paths
  import opened Envelope
  import opened SecretTables
  import opened Rotation
  import TagTables
  import AuditEntries
  import AuditLog
  import opened Daemon
  import opened Trail

  // ----- what can be observed -----

  function TagsAt(d: State, path: SecretPath): set<TagTables.Tag> {
    if path in d.disk.secrets then TagTables.TagsOn(d.disk.tags, d.disk.secrets[path].id) else {}
  }

  ghost predicate SameReads(d: State, d': State) {
    forall path, selector :: ReadValue(d', path, selector) == ReadValue(d, path, selector)
  }

  ghost predicate SameReadsElsewhere(d: State, d': State, path: SecretPath) {
    forall p, selector :: p != path ==> ReadValue(d', p, selector) == ReadValue(d, p, selector)
  }

  ghost predicate SameTags(d: State, d': State) {
    forall path :: TagsAt(d', path) == TagsAt(d, path)
  }

  ghost predicate SameTagsElsewhere(d: State, d': State, path: SecretPath) {
    forall p :: p != path ==> TagsAt(d', p) == TagsAt(d, p)
  }

  predicate SameKeys(d: State, d': State) {
    d'.keys == d.keys && d'.kek == d.kek && d'.disk.sealedMaster == d.disk.sealedMaster
  }

  lemma LogIsNotRead(c: Crypto, d: State, e: AuditEntries.Entry)
    ensures SameReads(d, Logged(c, d, e)) && SameTags(d, Logged(c, d, e)) && SameKeys(d, Logged(c, d, e))
    ensures Logged(c, d, e).disk.secrets == d.disk.secrets
  {
    hide AuditLog.Append, ReadVersion, Open, TagTables.TagsOn;
  }

  lemma RowIsRead(d: State, d': State, path: SecretPath, selector: Selector)
    requires d'.keys.master == d.keys.master
    requires if path in d.disk.secrets then path in d'.disk.secrets && d'.disk.secrets[path] == d.disk.secrets[path]
             else path !in d'.disk.secrets
    ensures ReadValue(d', path, selector) == ReadValue(d, path, selector)
  {
    hide BuildSealed, Open;
  }

  /** In a coherent daemon a read gives what was written to the version asked for, if that is active, and nothing else. */
  lemma ReadsExactly(c: Crypto, w: World, path: SecretPath, selector: Selector, v: Version)
    requires Coherent(c, w)
    ensures var (r, secrets) := (ReadValue(w.daemon, path, selector), w.daemon.disk.secrets);
      && (Names(secrets, path, selector, v) && secrets[path].versions[v].state == Active ==>
            (path, v) in w.written && r == Ok((v, w.written[(path, v)])))
      && (r.Ok? && r.value.0 == v ==> Names(secrets, path, selector, v) && secrets[path].versions[v].state == Active)
      && (r.Err? ==> r.error == NotFound)
  {
    hide Coherent, Open, BuildSealed, StoreOk, Readable;
    ReadsAreFaithful(c, w, path, selector);
    CoherentStore(c, w);
    var (secrets, master) := (w.daemon.disk.secrets, w.daemon.keys.master);
    ExactIsReadable(secrets, path, v);
    if Names(secrets, path, selector, v) {
      NamedIsExact(secrets, path, selector, v);
    }
    ReadsWhatWasWritten(secrets, master, w.written, path, selector);
    var stored := ReadVersion(secrets, path, selector);
    if stored.Ok? {
      ReadMeans(secrets, path, selector, stored.value);
    }
    hide ReadVersion, Names;
  }

  lemma NamedIsExact(secrets: Secrets, path: SecretPath, selector: Selector, v: Version)
    requires Names(secrets, path, selector, v)
    ensures ReadVersion(secrets, path, selector) == ReadVersion(secrets, path, Exact(v))
  {
    hide BuildSealed;
  }

  /** So two coherent daemons with the same current versions, states and plaintexts read alike. */
  lemma ReadAlike(c: Crypto, w: World, w': World, path: SecretPath, selector: Selector)
    requires Coherent(c, w) && Coherent(c, w')
    requires forall v: Version :: Asked(w, path, selector, v) <==> Asked(w', path, selector, v)
    requires forall v: Version :: Asked(w, path, selector, v) && (path, v) in w.written ==>
      (path, v) in w'.written && w'.written[(path, v)] == w.written[(path, v)]
    ensures ReadValue(w'.daemon, path, selector) == ReadValue(w.daemon, path, selector)
  {
    hide Coherent, ReadValue, Asked;
    var (r, r') := (ReadValue(w.daemon, path, selector), ReadValue(w'.daemon, path, selector));
    var v := if r.Ok? then r.value.0 else if r'.Ok? then r'.value.0 else 1;
    AskedIsRead(c, w, path, selector, v);
    AskedIsRead(c, w', path, selector, v);
  }

  /** The selector asks for this version, and it is there to be read. */
  predicate Asked(w: World, path: SecretPath, selector: Selector, v: Version) {
    Names(w.daemon.disk.secrets, path, selector, v) && w.daemon.disk.secrets[path].versions[v].state == Active
  }

  lemma AskedIsRead(c: Crypto, w: World, path: SecretPath, selector: Selector, v: Version)
    requires Coherent(c, w)
    ensures var r := ReadValue(w.daemon, path, selector);
      && (Asked(w, path, selector, v) ==> (path, v) in w.written && r == Ok((v, w.written[(path, v)])))
      && (r.Ok? && r.value.0 == v ==> Asked(w, path, selector, v))
      && (r.Err? ==> r.error == NotFound)
  {
    ReadsExactly(c, w, path, selector, v);
    hide Coherent, ReadValue, Names;
  }

  // ----- rollback -----

  /**
   * A rollback succeeds exactly on a version that reads, which is then what current reads; every other read is as
   * before, and so are tags and keys. Otherwise nothing happens at all.
   */
  lemma RollBackEffect(c: Crypto, w: World, e: Event)
    requires Coherent(c, w) && e.RollBack?
    ensures var (d, d') := (w.daemon, Step(c, w, e).daemon);
      && (ReadValue(d, e.path, Exact(e.to)).Err? ==> Step(c, w, e) == w)
      && (ReadValue(d, e.path, Exact(e.to)).Ok? ==>
            && ReadValue(d', e.path, Current) == ReadValue(d, e.path, Exact(e.to))
            && (forall v :: ReadValue(d', e.path, Exact(v)) == ReadValue(d, e.path, Exact(v)))
            && SameReadsElsewhere(d, d', e.path) && SameTags(d, d') && SameKeys(d, d'))
  {
    hide Coherent, ReadValue, Logged, RecordEntry, TagTables.TagsOn, Rollback;
    var (d, secrets) := (w.daemon, w.daemon.disk.secrets);
    CoherentStore(c, w);
    RollbackIsReadBack(secrets, e.path, e.to);
    ReadsWhenVersionReads(c, w, e.path, Exact(e.to));
    var r := Rollback(secrets, e.path, e.to);
    if r.Ok? {
      var d1 := d.(disk := d.disk.(secrets := r.value));
      LogIsNotRead(c, d1, RecordEntry(e.caller, AuditEntries.Rollback, Some(e.path), Some(e.to)));
      ReadsFromVersion(d1, e.path, Current, d, Exact(e.to));
      RolledBackRow(secrets, e.path, e.to);
      forall p, selector | p != e.path ensures ReadValue(d1, p, selector) == ReadValue(d, p, selector) {
        RowIsRead(d, d1, p, selector);
      }
      forall v ensures ReadValue(d1, e.path, Exact(v)) == ReadValue(d, e.path, Exact(v)) {
        ExactReadsRow(d, d1, e.path, v);
      }
    }
  }

  lemma CoherentStore(c: Crypto, w: World)
    requires Coherent(c, w)
    ensures StoreOk(w.daemon.disk.secrets) && TagTables.TagsOk(w.daemon.disk.tags)
    ensures Readable(w.daemon.disk.secrets, w.daemon.keys.master, w.written)
  {
    hide StoreOk, LogCoherent, KeysCoherent, Readable, TagTables.TagsOk;
  }

  lemma ReadsWhenVersionReads(c: Crypto, w: World, path: SecretPath, selector: Selector)
    requires Coherent(c, w)
    ensures ReadValue(w.daemon, path, selector).Ok? <==> ReadVersion(w.daemon.disk.secrets, path, selector).Ok?
  {
    hide Coherent, Open;
    ReadsAreFaithful(c, w, path, selector);
  }

  lemma ReadsFromVersion(d': State, path: SecretPath, s': Selector, d: State, s: Selector)
    requires d'.keys == d.keys && ReadVersion(d'.disk.secrets, path, s') == ReadVersion(d.disk.secrets, path, s)
    ensures ReadValue(d', path, s') == ReadValue(d, path, s)
  {
    hide ReadVersion, Open;
  }

  lemma RolledBackRow(secrets: Secrets, path: SecretPath, to: Version)
    requires Rollback(secrets, path, to).Ok?
    ensures path in secrets && Rollback(secrets, path, to).value == secrets[path := secrets[path].(current := Some(to))]
  {
  }

  lemma ExactReadsRow(d: State, d': State, path: SecretPath, v: Version)
    requires d'.keys == d.keys && path in d.disk.secrets && path in d'.disk.secrets
    requires d'.disk.secrets[path].id == d.disk.secrets[path].id
    requires v in d.disk.secrets[path].versions <==> v in d'.disk.secrets[path].versions
    requires v in d.disk.secrets[path].versions ==>
      d'.disk.secrets[path].versions[v] == d.disk.secrets[path].versions[v]
    ensures ReadValue(d', path, Exact(v)) == ReadValue(d, path, Exact(v))
  {
    hide BuildSealed, Open;
  }

  // ----- write -----

  /** The number a write takes and how many versions the secret keeps: those of a new secret are 1 and 10. */
  ghost function NextNumber(secrets: Secrets, path: SecretPath): int {
    if path in secrets then Highest(secrets[path].versions) + 1 else 1
  }

  function KeptCount(secrets: Secrets, path: SecretPath): U32 {
    if path in secrets then secrets[path].maxVersions else 10
  }

  ghost predicate CanWrite(secrets: Secrets, path: SecretPath, newId: Id) {
    if path in secrets then Highest(secrets[path].versions) < U32_LIMIT - 1 else !IdTaken(secrets, newId)
  }

  /**
   * A write is what current reads, under the next number; older versions read as before while they are within the
   * retention limit, and not at all beyond it; its tags are added to the secret's, and nothing else changes.
   */
  lemma WriteEffect(c: Crypto, w: World, e: Event)
    requires Coherent(c, w) && e.Write?
    ensures var (d, d', secrets) := (w.daemon, Step(c, w, e).daemon, w.daemon.disk.secrets);
      && (!CanWrite(secrets, e.path, e.newId) ==> Step(c, w, e) == w)
      && (CanWrite(secrets, e.path, e.newId) ==>
            var v := NextNumber(secrets, e.path);
            && ReadValue(d', e.path, Current) == Ok((v, e.plaintext))
            && ReadValue(d', e.path, Exact(v)) == Ok((v, e.plaintext))
            && StoredWith(d'.disk.secrets, e.path, v, e.meta)
            && (forall u: Version :: u < v ==>
                  ReadValue(d', e.path, Exact(u)) ==
                    if u + KeptCount(secrets, e.path) > v then ReadValue(d, e.path, Exact(u)) else Err(NotFound))
            && TagsAt(d', e.path) == TagsAt(d, e.path) + (set tag | tag in e.tags)
            && SameReadsElsewhere(d, d', e.path) && SameTagsElsewhere(d, d', e.path) && SameKeys(d, d'))
  {
    hide Coherent, ReadValue, Logged, RecordEntry, TagTables.TagsOn, TagTables.AddTags, Commit, BeginWrite, Seal, StoreOk;
    var (d, secrets) := (w.daemon, w.daemon.disk.secrets);
    CoherentStore(c, w);
    WriteSucceedsExactly(secrets, e.path, e.newId);
    var r := BeginWrite(secrets, e.path, e.newId);
    if r.Ok? {
      var slot := r.value;
      var sealed := Seal(d.keys.master, d.keys.generation, SlotBinding(slot), e.plaintext, e.rnd);
      var committed := Commit(secrets, slot, sealed, e.meta);
      var tags := if e.tags == [] then d.disk.tags else TagTables.AddTags(d.disk.tags, slot.row.id, e.tags);
      var d1 := d.(disk := d.disk.(secrets := committed, tags := tags));
      LogIsNotRead(c, d1, RecordEntry(e.caller, AuditEntries.Write, Some(e.path), Some(slot.version)));
      WrittenReads(c, w, e, tags);
      WrittenTags(c, w, e, slot, sealed);
      hide SameReadsElsewhere, SameTagsElsewhere;
    }
  }

  lemma WrittenReads(c: Crypto, w: World, e: Event, tags: TagTables.Tables)
    requires Coherent(c, w) && e.Write? && BeginWrite(w.daemon.disk.secrets, e.path, e.newId).Ok?
    ensures var (d, slot) := (w.daemon, BeginWrite(w.daemon.disk.secrets, e.path, e.newId).value);
      var sealed := Seal(d.keys.master, d.keys.generation, SlotBinding(slot), e.plaintext, e.rnd);
      var d1 := d.(disk := d.disk.(secrets := Commit(d.disk.secrets, slot, sealed, e.meta), tags := tags));
      && slot.version == NextNumber(d.disk.secrets, e.path)
      && ReadValue(d1, e.path, Current) == Ok((slot.version, e.plaintext))
      && ReadValue(d1, e.path, Exact(slot.version)) == Ok((slot.version, e.plaintext))
      && StoredWith(d1.disk.secrets, e.path, slot.version, e.meta)
      && (forall u: Version :: u < slot.version ==>
            ReadValue(d1, e.path, Exact(u)) ==
              if u + KeptCount(d.disk.secrets, e.path) > slot.version then ReadValue(d, e.path, Exact(u)) else Err(NotFound))
      && SameReadsElsewhere(d, d1, e.path)
  {
    hide Coherent, Seal, StoreOk, Commit, Open, BuildSealed, Evolves, Readable, ReadVersion, MaxOf;
    var (d, secrets) := (w.daemon, w.daemon.disk.secrets);
    CoherentStore(c, w);
    var slot := BeginWrite(secrets, e.path, e.newId).value;
    var sealed := Seal(d.keys.master, d.keys.generation, SlotBinding(slot), e.plaintext, e.rnd);
    WriteKeepsStoreOk(secrets, e.path, e.newId, sealed, e.meta);
    WriteIsReadBack(secrets, e.path, e.newId, sealed, e.meta);
    OpensOnlyInItsSlot(d.keys.master, d.keys.generation, SlotBinding(slot), e.plaintext, e.rnd, d.keys.master, SlotBinding(slot));
    hide BeginWrite;
    var d1 := d.(disk := d.disk.(secrets := Commit(secrets, slot, sealed, e.meta), tags := tags));
    forall p, selector | p != e.path ensures ReadValue(d1, p, selector) == ReadValue(d, p, selector) {
      RowIsRead(d, d1, p, selector);
    }
    CurrentIsExact(d1, e.path, slot.version, sealed, slot.row.id);
    forall u: Version | u < slot.version
      ensures ReadValue(d1, e.path, Exact(u)) ==
        if u + KeptCount(secrets, e.path) > slot.version then ReadValue(d, e.path, Exact(u)) else Err(NotFound)
    {
      OlderReads(d, d1, slot, u);
    }
  }

  lemma CurrentIsExact(d: State, path: SecretPath, v: Version, sealed: SealedVersion, id: Id)
    requires ReadVersion(d.disk.secrets, path, Current) == Ok(StoredVersion(Binding(id, v), sealed, v))
    ensures ReadVersion(d.disk.secrets, path, Exact(v)) == ReadVersion(d.disk.secrets, path, Current)
  {
    hide BuildSealed;
  }

  lemma OlderReads(d: State, d1: State, slot: Slot, u: Version)
    requires d1.keys == d.keys && u != slot.version && slot.path in d1.disk.secrets
    requires if slot.path in d.disk.secrets then slot.row == d.disk.secrets[slot.path] else slot.row.versions == map[]
    requires var row := d1.disk.secrets[slot.path];
      && row.id == slot.row.id && row.versions.Keys == slot.row.versions.Keys + {slot.version}
      && (forall v :: v in slot.row.versions ==>
            row.versions[v] ==
              if slot.row.versions[v].state != Destroyed && v + slot.row.maxVersions <= slot.version
              then Erased(slot.row.versions[v]) else slot.row.versions[v])
    ensures ReadValue(d1, slot.path, Exact(u)) ==
      if u + slot.row.maxVersions > slot.version then ReadValue(d, slot.path, Exact(u)) else Err(NotFound)
  {
    hide Open;
  }

  lemma WrittenTags(c: Crypto, w: World, e: Event, slot: Slot, sealed: SealedVersion)
    requires Coherent(c, w) && e.Write? && BeginWrite(w.daemon.disk.secrets, e.path, e.newId) == Ok(slot)
    ensures var d := w.daemon;
      var tags := if e.tags == [] then d.disk.tags else TagTables.AddTags(d.disk.tags, slot.row.id, e.tags);
      var d1 := d.(disk := d.disk.(secrets := Commit(d.disk.secrets, slot, sealed, e.meta), tags := tags));
      && TagsAt(d1, e.path) == TagsAt(d, e.path) + (set tag | tag in e.tags)
      && SameTagsElsewhere(d, d1, e.path)
  {
    hide LogCoherent, KeysCoherent, Readable, TagTables.TagsOk, TagTables.TagsOn, RowOk, MaxOf;
    var (d, secrets) := (w.daemon, w.daemon.disk.secrets);
    TagTables.AddTagsMeans(d.disk.tags, slot.row.id, e.tags);
    if e.path !in secrets {
      FreshIdHasNoTags(d.disk, slot.row.id);
    }
    hide TagTables.AddTags;
    assert e.tags == [] ==> (set tag | tag in e.tags) == {};
  }

  lemma FreshIdHasNoTags(disk: Disk, id: Id)
    requires TagsCoherent(disk) && !IdTaken(disk.secrets, id)
    ensures TagTables.TagsOn(disk.tags, id) == {}
  {
    hide TagTables.TagsOk;
  }

  // ----- delete -----

  predicate AlreadyDestroyed(secrets: Secrets, path: SecretPath, v: Version) {
    path in secrets && v in secrets[path].versions && secrets[path].versions[v].state == Destroyed
  }

  /** A soft delete hides the version and keeps its payload, a destroy clears it. */
  predicate VersionDeleted(before: Secrets, after: Secrets, path: SecretPath, v: Version, mode: DeleteMode) {
    && path in before && path in after && v in before[path].versions && v in after[path].versions
    && match mode
       case Soft => after[path].versions[v] == before[path].versions[v].(state := Deleted)
       case Destroy => Emptied(before[path].versions[v], after[path].versions[v])
  }

  predicate StoredWith(secrets: Secrets, path: SecretPath, v: int, meta: Meta) {
    path in secrets && v in secrets[path].versions && secrets[path].versions[v].meta == meta
  }

  /**
   * A soft delete succeeds exactly on a version that reads, a destroy exactly on one whose payload is still held.
   * Afterwards that version does not read, all others do as before, and current is the highest that reads.
   */
  lemma DeleteEffect(c: Crypto, w: World, e: Event, v: Version)
    requires Coherent(c, w) && e.Delete? && Names(w.daemon.disk.secrets, e.path, e.selector, v)
    ensures var (d, d') := (w.daemon, Step(c, w, e).daemon);
      var deletes := if e.mode == Soft then ReadValue(d, e.path, e.selector).Ok?
                     else !AlreadyDestroyed(d.disk.secrets, e.path, v);
      && (!deletes ==> Step(c, w, e) == w)
      && (deletes ==>
            && VersionDeleted(d.disk.secrets, d'.disk.secrets, e.path, v, e.mode)
            && ReadValue(d', e.path, Exact(v)) == Err(NotFound)
            && (forall u :: u != v ==> ReadValue(d', e.path, Exact(u)) == ReadValue(d, e.path, Exact(u)))
            && CurrentIsHighest(d', e.path)
            && SameReadsElsewhere(d, d', e.path) && SameTags(d, d') && SameKeys(d, d'))
  {
    hide Coherent, ReadValue, RecordEntry, DeleteVersion, Emptied, StoreOk, CurrentIsHighest, Step, Logged;
    hide SameReadsElsewhere, SameTags, SameKeys, Readable;
    var (d, secrets) := (w.daemon, w.daemon.disk.secrets);
    CoherentStore(c, w);
    DeleteStepIs(c, w, e);
    DeleteSucceedsExactly(secrets, e.path, e.selector, e.mode);
    var x := ReadValue(d, e.path, e.selector);
    ReadsExactly(c, w, e.path, e.selector, v);
    ReadsExactly(c, w, e.path, e.selector, if x.Ok? then x.value.0 else v);
    OnlyOneNamed(secrets, e.path, e.selector, v);
    var r := DeleteVersion(secrets, e.path, e.selector, e.mode);
    if r.Ok? {
      DeleteHidesExactlyOne(secrets, e.path, e.selector, e.mode);
      assert r.value.1 == v;
      hide Names;
      StepSound(c, w, e);
      var d' := Step(c, w, e).daemon;
      HighestIsCurrent(c, Step(c, w, e), e.path);
      DeletedReadings(d, d', e.path, v);
      DeletedTags(c, w, e);
    }
  }

  lemma DeleteStepIs(c: Crypto, w: World, e: Event)
    requires e.Delete?
    ensures var r := DeleteVersion(w.daemon.disk.secrets, e.path, e.selector, e.mode);
      && (r.Err? ==> Step(c, w, e) == w)
      && (r.Ok? ==> var d' := Step(c, w, e).daemon;
                    d'.disk.secrets == r.value.0 && d'.disk.tags == w.daemon.disk.tags && SameKeys(w.daemon, d'))
  {
    hide Logged, DeleteVersion, RecordEntry;
    var (d, r) := (w.daemon, DeleteVersion(w.daemon.disk.secrets, e.path, e.selector, e.mode));
    if r.Ok? {
      LoggedChangesTheLog(c, d.(disk := d.disk.(secrets := r.value.0)),
                          RecordEntry(e.caller, AuditEntries.Delete, Some(e.path), Some(r.value.1)));
      hide AuditLog.Append;
    }
  }

  lemma DeletedReadings(d: State, d': State, path: SecretPath, v: Version)
    requires SameKeys(d, d') && OthersUntouched(d.disk.secrets, d'.disk.secrets, path) && path in d.disk.secrets
    requires ReadVersion(d'.disk.secrets, path, Exact(v)) == Err(NotFound)
    requires forall u :: u != v ==>
      ReadVersion(d'.disk.secrets, path, Exact(u)) == ReadVersion(d.disk.secrets, path, Exact(u))
    ensures ReadValue(d', path, Exact(v)) == Err(NotFound)
    ensures forall u :: u != v ==> ReadValue(d', path, Exact(u)) == ReadValue(d, path, Exact(u))
    ensures SameReadsElsewhere(d, d', path)
  {
    hide ReadVersion, ReadValue;
    NotFoundIsNotRead(d', path, Exact(v));
    forall u: Version | u != v ensures ReadValue(d', path, Exact(u)) == ReadValue(d, path, Exact(u)) {
      ReadsFromVersion(d', path, Exact(u), d, Exact(u));
    }
    forall p, selector | p != path ensures ReadValue(d', p, selector) == ReadValue(d, p, selector) {
      RowIsRead(d, d', p, selector);
    }
  }

  lemma OnlyOneNamed(secrets: Secrets, path: SecretPath, selector: Selector, v: Version)
    requires Names(secrets, path, selector, v)
    ensures forall u: Version :: Names(secrets, path, selector, u) ==> u == v
  {
  }

  lemma DeletedTags(c: Crypto, w: World, e: Event)
    requires e.Delete? && DeleteVersion(w.daemon.disk.secrets, e.path, e.selector, e.mode).Ok?
    ensures SameTags(w.daemon, Step(c, w, e).daemon)
  {
    DeleteStepIs(c, w, e);
    hide TagTables.TagsOn, HighestActive, DeletedRow, Step;
  }

  lemma NotFoundIsNotRead(d: State, path: SecretPath, selector: Selector)
    requires ReadVersion(d.disk.secrets, path, selector) == Err(NotFound)
    ensures ReadValue(d, path, selector) == Err(NotFound)
  {
    hide ReadVersion, Open;
  }

  /** Current reads exactly when some version does, and then it is the highest of those. */
  ghost predicate CurrentIsHighest(d: State, path: SecretPath) {
    var r := ReadValue(d, path, Current);
    && (r.Err? ==> forall u: Version :: ReadValue(d, path, Exact(u)).Err?)
    && (r.Ok? ==> ReadValue(d, path, Exact(r.value.0)) == r
                  && forall u: Version :: ReadValue(d, path, Exact(u)).Ok? ==> u <= r.value.0)
  }

  lemma HighestIsCurrent(c: Crypto, w: World, path: SecretPath)
    requires Coherent(c, w) && path in w.daemon.disk.secrets
    requires var row := w.daemon.disk.secrets[path];
      && (forall u :: u in row.versions && row.versions[u].state == Active ==>
            row.current.Some? && u <= row.current.value)
      && (row.current.Some? ==> row.current.value in row.versions && row.versions[row.current.value].state == Active)
    ensures CurrentIsHighest(w.daemon, path)
  {
    hide Coherent, ReadValue;
    var (d, row) := (w.daemon, w.daemon.disk.secrets[path]);
    forall u: Version
      ensures ReadValue(d, path, Exact(u)).Ok? ==> u in row.versions && row.versions[u].state == Active
    {
      var x := ReadValue(d, path, Exact(u));
      ReadsExactly(c, w, path, Exact(u), if x.Ok? then x.value.0 else u);
    }
    var r := ReadValue(d, path, Current);
    if row.current.Some? {
      ReadsExactly(c, w, path, Current, row.current.value);
      ReadsExactly(c, w, path, Exact(row.current.value), row.current.value);
    } else {
      ReadsExactly(c, w, path, Current, if r.Ok? then r.value.0 else 1);
    }
  }

  /** Where the selector asks for no version there is, nothing is deleted. */
  lemma DeleteOfNothing(c: Crypto, w: World, e: Event)
    requires e.Delete? && forall v: Version :: !Names(w.daemon.disk.secrets, e.path, e.selector, v)
    ensures Step(c, w, e) == w
  {
    hide Step, DeleteVersion, Names;
    DeleteStepIs(c, w, e);
    DeleteSucceedsExactly(w.daemon.disk.secrets, e.path, e.selector, e.mode);
  }

  // ----- tags -----

  /** A tag is selected by itself or by its bare key. */
  lemma SelectorsSelect(selectors: seq<TagTables.TagSelector>)
    ensures forall tag: TagTables.Tag ::
      TagTables.AnySelects(selectors, tag) <==> TagTables.ByTag(tag) in selectors || TagTables.ByKey(tag.key) in selectors
  {
    forall tag: TagTables.Tag
      ensures TagTables.AnySelects(selectors, tag) <==>
        TagTables.ByTag(tag) in selectors || TagTables.ByKey(tag.key) in selectors
    {
      if i :| 0 <= i < |selectors| && (selectors[i] == TagTables.ByTag(tag) || selectors[i] == TagTables.ByKey(tag.key)) {
        assert TagTables.Selects(selectors[i], tag);
      }
    }
  }

  /** Tag events change the tags of one secret that exists, exactly as asked, and nothing else. */
  lemma TagEffect(c: Crypto, w: World, e: Event)
    requires Coherent(c, w) && (e.AddTags? || e.RemoveTags?)
    ensures var (d, d') := (w.daemon, Step(c, w, e).daemon);
      && (e.path !in d.disk.secrets ==> Step(c, w, e) == w)
      && (e.path in d.disk.secrets ==>
            && (e.AddTags? ==> TagsAt(d', e.path) == TagsAt(d, e.path) + (set tag | tag in e.tags))
            && (e.RemoveTags? ==>
                  forall tag: TagTables.Tag :: tag in TagsAt(d', e.path) <==>
                    && tag in TagsAt(d, e.path)
                    && TagTables.ByTag(tag) !in e.selectors && TagTables.ByKey(tag.key) !in e.selectors)
            && SameTagsElsewhere(d, d', e.path) && SameReads(d, d') && SameKeys(d, d'))
  {
    var (d, secrets) := (w.daemon, w.daemon.disk.secrets);
    CoherentStore(c, w);
    hide Coherent, RowOk, Readable, Logged, RecordEntry, TagTables.TagsOn, TagTables.TagsOk, TagTables.AnySelects;
    hide TagTables.AddTags, TagTables.RemoveTags, SameReads, SameTagsElsewhere;
    if e.path in secrets {
      var id := secrets[e.path].id;
      var tags := if e.AddTags? then TagTables.AddTags(d.disk.tags, id, e.tags)
                  else TagTables.RemoveTags(d.disk.tags, id, e.selectors);
      if e.AddTags? {
        TagTables.AddTagsMeans(d.disk.tags, id, e.tags);
      } else {
        TagTables.RemoveTagsMeans(d.disk.tags, id, e.selectors);
        SelectorsSelect(e.selectors);
      }
      var d1 := d.(disk := d.disk.(tags := tags));
      OneSecretsTags(d, tags, e.path);
      hide StoreOk;
      var entry := RecordEntry(e.caller, AuditEntries.Tag, Some(e.path), None);
      LogIsNotRead(c, d1, entry);
      assert Step(c, w, e).daemon == Logged(c, d1, entry);
      hide Step;
      Chain(d, d1, Logged(c, d1, entry), e.path);
    }
  }

  lemma OneSecretsTags(d: State, tags: TagTables.Tables, path: SecretPath)
    requires StoreOk(d.disk.secrets) && path in d.disk.secrets
    requires forall id :: id != d.disk.secrets[path].id ==> TagTables.TagsOn(tags, id) == TagTables.TagsOn(d.disk.tags, id)
    ensures var d1 := d.(disk := d.disk.(tags := tags));
      SameReads(d, d1) && SameTagsElsewhere(d, d1, path)
  {
    hide TagTables.TagsOn, RowOk, ReadVersion, Open;
  }

  lemma Chain(a: State, b: State, c: State, path: SecretPath)
    requires SameReads(a, b) && SameReads(b, c) && SameTagsElsewhere(a, b, path) && SameTags(b, c)
    ensures SameReads(a, c) && SameTagsElsewhere(a, c, path) && TagsAt(c, path) == TagsAt(b, path)
  {
    hide ReadValue, TagsAt;
  }

  // ----- events that only record, and those that change keys -----

  /** Refusals, reads, batches and everything else observed change nothing but the log. */
  lemma ObservingEffect(c: Crypto, w: World, e: Event)
    requires e.Refused? || e.Read? || e.ResolveBatch? || e.Observe?
    ensures var (d, d') := (w.daemon, Step(c, w, e).daemon);
      d' == d.(disk := d.disk.(log := d'.disk.log)) && Step(c, w, e).written == w.written
  {
    hide ReadValue, AllReadable, AuditLog.Append, RecordEntry, RefusalEntry;
  }

  lemma RotatedGenerations(r: Rotor, secrets: Secrets)
    requires RotateAll(r, secrets).Some?
    ensures var after := RotateAll(r, secrets).value;
      forall p, v :: p in after && v in after[p].versions ==>
        after[p].versions[v].state == Destroyed || after[p].versions[v].generation == r.generation
  {
    hide OpenKey;
    var after := RotateAll(r, secrets).value;
    forall p, v | p in after && v in after[p].versions
      ensures after[p].versions[v].state == Destroyed || after[p].versions[v].generation == r.generation
    {
      assert CanRotateRow(r, p, secrets[p]);
    }
  }

  lemma RotatedReadsAlike(c: Crypto, w: World, w': World)
    requires Coherent(c, w) && Coherent(c, w') && w'.written == w.written
    requires OnlyWrapsDiffer(w.daemon.disk.secrets, w'.daemon.disk.secrets)
    ensures SameReads(w.daemon, w'.daemon)
  {
    hide Coherent, ReadValue;
    forall p, selector ensures ReadValue(w'.daemon, p, selector) == ReadValue(w.daemon, p, selector) {
      ReadAlike(c, w, w', p, selector);
    }
  }

  lemma RotatedTags(d: State, d': State)
    requires OnlyWrapsDiffer(d.disk.secrets, d'.disk.secrets) && d'.disk.tags == d.disk.tags
    ensures SameTags(d, d')
  {
    hide TagTables.TagsOn;
  }

  /** A rotation that is alone always completes: its last boundary, and then the entry. */
  lemma RekeyCompletes(c: Crypto, w: World, e: Event)
    requires Coherent(c, w) && Rotates(w, e)
    ensures AuditLog.RekeyChain(c.mac, w.daemon.keys.auditKey, c.auditKeyOf(e.successor), w.daemon.disk.log).Ok?
    ensures RotateAll(RotorFor(w.daemon, e), w.daemon.disk.secrets).Some?
    ensures Step(c, w, e) == World(
      Logged(c, AtBoundary(c, w.daemon, e, Adopted), RecordEntry(e.caller, AuditEntries.Rekey, None, None)), w.written)
  {
    hide Coherent, Logged, AuditLog.RekeyChain, RotateAll, RecordEntry;
    RotationSucceeds(c, w, e);
  }

  /**
   * A rotation succeeds whenever the generation has a successor: the new key, its audit key and the next generation
   * are in memory and on disk, every read and every tag is as before, and every retained version is wrapped for it.
   */
  lemma RekeyEffect(c: Crypto, w: World, e: Event)
    requires Coherent(c, w) && e.Rekey?
    ensures var (d, d') := (w.daemon, Step(c, w, e).daemon);
      && (d.keys.generation + 1 == U32_LIMIT ==> Step(c, w, e) == w)
      && (d.keys.generation + 1 < U32_LIMIT ==>
            && d'.keys == KeyMaterial(e.successor, c.auditKeyOf(e.successor), d.keys.generation + 1)
            && d'.kek == d.kek && d'.disk.sealedMaster.Some?
            && UnsealMaster(d'.kek, d'.disk.sealedMaster.value) == Ok(e.successor)
            && d'.disk.sealedMaster.value.generation == d.keys.generation + 1
            && SameReads(d, d') && SameTags(d, d')
            && (forall p, v :: p in d'.disk.secrets && v in d'.disk.secrets[p].versions ==>
                  d'.disk.secrets[p].versions[v].state == Destroyed
                  || d'.disk.secrets[p].versions[v].generation == d.keys.generation + 1))
  {
    var d := w.daemon;
    if d.keys.generation + 1 < U32_LIMIT {
      hide Coherent, Logged, AuditLog.RekeyChain, RotateAll, RecordEntry, SameReads, SameTags, OnlyWrapsDiffer, UnsealMaster;
      hide SealMaster;
      StepSound(c, w, e);
      RekeyCompletes(c, w, e);
      RotationTouchesOnlyWraps(RotorFor(d, e), d.disk.secrets);
      RotatedGenerations(RotorFor(d, e), d.disk.secrets);
      var d1 := AtBoundary(c, d, e, Adopted);
      BoundaryKeysCoherent(c, d, e);
      LogIsNotRead(c, d1, RecordEntry(e.caller, AuditEntries.Rekey, None, None));
      RotatedReadsAlike(c, w, Step(c, w, e));
      RotatedTags(d, d1);
      TagsFollow(d, d1, Step(c, w, e).daemon);
    }
  }

  lemma TagsFollow(a: State, b: State, c: State)
    requires SameTags(a, b) && SameTags(b, c)
    ensures SameTags(a, c)
  {
    hide TagsAt;
  }

  /** A restart finds the same keys, and changes nothing but the log. */
  lemma RestartEffect(c: Crypto, w: World, e: Event)
    requires Coherent(c, w) && e.Restart?
    ensures var (d, d') := (w.daemon, Step(c, w, e).daemon);
      SameKeys(d, d') && SameReads(d, d') && SameTags(d, d') && d'.disk.secrets == d.disk.secrets
  {
    hide SecretsCoherent, TagsCoherent, LogCoherent, Logged, UnsealMaster, SameReads, SameTags, UnsealEntry;
    LogIsNotRead(c, w.daemon, UnsealEntry(e.now, e.uid));
  }

  /** A new daemon: generation 1, a sealed master key that unseals, nothing stored, and one entry. */
  lemma InitialEffect(c: Crypto, kek: Key32, master: Key32, nonce: Nonce, now: I64)
    ensures var d := Initial(c, kek, master, nonce, now).daemon;
      && d.kek == kek && d.keys == KeyMaterial(master, c.auditKeyOf(master), 1)
      && d.disk.sealedMaster.Some? && UnsealMaster(kek, d.disk.sealedMaster.value) == Ok(master)
      && d.disk.sealedMaster.value.generation == 1
      && d.disk.secrets == map[] && d.disk.tags == TagTables.NO_TAGS
      && |d.disk.log.rows| == 1
      && var entry := AuditLog.ReadEntry(d.disk.log.rows[0]);
      && entry.Ok? && entry.value.action == AuditEntries.Init && entry.value.ts == now
      && entry.value.outcome == AuditEntries.Success && entry.value.path.None? && entry.value.tokenPrefix.None?
  {
    hide AuditLog.Append, AuditLog.ReadEntry, AuditLog.Verify;
    MasterUnsealsAtItsGeneration(kek, master, 1, nonce, kek, 1);
    var entry := AuditEntries.Entry(now, None, None, None, AuditEntries.Init, None, None, AuditEntries.Success, None);
    AuditLog.BuiltLogVerifies(c.mac, c.auditKeyOf(master), [entry]);
    AppendOnce(c.mac, c.auditKeyOf(master), AuditLog.EMPTY_LOG, entry);
  }
}
