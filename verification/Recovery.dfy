/** From one daemon to another: a backup of the first restored into the second. */
module Recovery {
  import opened ByteStrings
  import opened Paths
  import opened Envelope
  import opened SecretTables
  import opened Rotation
  import TagTables
  import AuditEntries
  import AuditLog
  import opened Backup
  import opened Daemon

  /** A daemon that holds what a restore imported and has recorded the restore. */
  ghost function RestoredWorld(
    c: Crypto, d: State, caller: Caller, secrets: Secrets, tags: TagTables.Tables, written: Written): World
  {
    World(Logged(c, d.(disk := d.disk.(secrets := secrets, tags := tags)),
                 RecordEntry(caller, AuditEntries.Restore, None, None)),
          written)
  }

  /** A read, answered from what an operator can see of a store. */
  function ViewRead(view: map<SecretPath, SecretView>, path: SecretPath, selector: Selector)
    : Result<(Version, Bytes), StoreError>
  {
    if path !in view || (selector.Current? && view[path].current.None?) then Err(NotFound)
    else
      var v := if selector.Current? then view[path].current.value else selector.version;
      if v !in view[path].versions || view[path].versions[v].state != Active || view[path].versions[v].value.None?
      then Err(NotFound)
      else Ok((v, view[path].versions[v].value.value))
  }

  /** In a coherent daemon what can be seen of the store answers every read. */
  lemma ReadsAreSeen(c: Crypto, w: World, path: SecretPath, selector: Selector)
    requires Coherent(c, w)
    ensures ReadValue(w.daemon, path, selector)
      == ViewRead(View(w.daemon.disk.secrets, w.daemon.disk.tags, w.daemon.keys.master), path, selector)
  {
    hide LogCoherent, KeysCoherent, TagsCoherent, Open, TagTables.TagsOn, ValidPath;
    var (secrets, master) := (w.daemon.disk.secrets, w.daemon.keys.master);
    if path in secrets {
      var row := secrets[path];
      assert RowOk(row) && RowReadable(row, master, path, w.written);
      if selector.Exact? || row.current.Some? {
        var v := if selector.Exact? then selector.version else row.current.value;
        if v in row.versions {
          VersionIsSeen(row.versions[v], master, Binding(row.id, v), path, v, w.written);
        }
      }
    }
  }

  lemma VersionIsSeen(row: VersionRow, master: Key32, b: Binding, path: SecretPath, v: Version, written: Written)
    requires PayloadOk(row)
    requires row.state != Destroyed ==> (path, v) in written && OpensTo(row, master, b, written[(path, v)])
    ensures row.state == Active ==>
      && BuildSealed(row).Ok? && Open(BuildSealed(row).value, master, b) == Ok(written[(path, v)])
      && ViewVersion(row, master, b).value == Some(written[(path, v)])
    ensures row.state != Active ==> BuildSealed(row) == Err(NotFound)
  {
    hide Open;
  }

  /** A coherent daemon without secrets has never been written to, and carries no tags. */
  lemma EmptyMeansUnwritten(c: Crypto, w: World)
    requires Coherent(c, w) && w.daemon.disk.secrets == map[]
    ensures w.written == map[] && w.daemon.disk.tags == TagTables.NO_TAGS
  {
    hide LogCoherent, KeysCoherent;
    assert w.daemon.disk.tags.links == {};
    assert w.daemon.disk.tags.tags == map[];
  }

  /**
   * Backup and restore end to end. A backup of a coherent daemon always succeeds, and any such backup, restored
   * into any other coherent daemon that holds no secrets, restores: the second is coherent afterwards, looks like
   * the first, and answers every read as it does.
   */
  lemma BackupMovesADaemon(
    c: Crypto, w: World, empty: World, bundle: seq<BundleSecret>, rnd: Freshness, ids: nat -> Id, caller: Caller)
    requires Coherent(c, w) && Coherent(c, empty) && empty.daemon.disk.secrets == map[]
    requires IsBackup(bundle, w.daemon.disk.secrets, w.daemon.disk.tags, w.daemon.keys.master) && FreshIds(ids, |bundle|)
    ensures EverythingOpens(w.daemon.disk.secrets, w.daemon.keys.master)
    ensures empty.written == map[] && empty.daemon.disk.tags == TagTables.NO_TAGS
    ensures var t := Target(empty.daemon.keys.master, empty.daemon.keys.generation, rnd);
      && Restore(bundle, t, ids).Ok?
      && var (secrets, tags) := Restore(bundle, t, ids).value;
         var w' := RestoredWorld(c, empty.daemon, caller, secrets, tags, w.written);
         && Coherent(c, w')
         && View(secrets, tags, t.master) == View(w.daemon.disk.secrets, w.daemon.disk.tags, w.daemon.keys.master)
         && (forall path, selector :: ReadValue(w'.daemon, path, selector) == ReadValue(w.daemon, path, selector))
         && (forall p :: p in w.daemon.disk.secrets ==> p in secrets && SameNextVersion(secrets, w.daemon.disk.secrets, p))
  {
    hide LogCoherent, KeysCoherent, StoreOk, Readable, View, Restore, IsBackup, TagTables.TagsOk, SameNextVersion, EverythingOpens;
    hide Logged, ReadValue, FreshIds;
    EmptyMeansUnwritten(c, empty);
    var (t, d) := (Target(empty.daemon.keys.master, empty.daemon.keys.generation, rnd), w.daemon);
    SoundStoreBacksUp(d.disk.secrets, d.keys.master, w.written);
    RestoreReproducesTheStore(bundle, t, ids, d.disk.secrets, d.disk.tags, d.keys.master, w.written);
    var (secrets, tags) := Restore(bundle, t, ids).value;
    var w' := RestoredWorld(c, empty.daemon, caller, secrets, tags, w.written);
    EverySeenIsHeld(secrets, tags, t.master, d.disk.secrets, d.disk.tags, d.keys.master);
    RestoredCoherently(c, w, empty, secrets, tags, caller);
    forall path, selector ensures ReadValue(w'.daemon, path, selector) == ReadValue(d, path, selector) {
      ReadsAreSeen(c, w, path, selector);
      ReadsAreSeen(c, w', path, selector);
      LoggedOnlyLogs(c, empty.daemon.(disk := empty.daemon.disk.(secrets := secrets, tags := tags)),
                     RecordEntry(caller, AuditEntries.Restore, None, None));
    }
  }

  lemma LoggedOnlyLogs(c: Crypto, d: State, e: AuditEntries.Entry)
    ensures var d' := Logged(c, d, e);
      d'.keys == d.keys && d'.kek == d.kek && d'.disk == d.disk.(log := d'.disk.log)
  {
    hide AuditLog.Append;
  }

  lemma EverySeenIsHeld(a: Secrets, aTags: TagTables.Tables, aMaster: Key32, b: Secrets, bTags: TagTables.Tables, bMaster: Key32)
    requires View(a, aTags, aMaster) == View(b, bTags, bMaster)
    ensures a.Keys == b.Keys && forall p :: p in a ==> a[p].versions.Keys == b[p].versions.Keys
  {
    hide ViewVersion, TagTables.TagsOn, ValidPath;
    assert a.Keys == View(a, aTags, aMaster).Keys && b.Keys == View(b, bTags, bMaster).Keys;
    forall p | p in a ensures a[p].versions.Keys == b[p].versions.Keys {
      assert ViewRow(a[p], aTags, aMaster) == View(a, aTags, aMaster)[p];
      assert ViewRow(b[p], bTags, bMaster) == View(b, bTags, bMaster)[p];
      assert ViewRow(a[p], aTags, aMaster).versions.Keys == a[p].versions.Keys;
      assert ViewRow(b[p], bTags, bMaster).versions.Keys == b[p].versions.Keys;
    }
  }

  lemma RestoredCoherently(
    c: Crypto, w: World, empty: World, secrets: Secrets, tags: TagTables.Tables, caller: Caller)
    requires Coherent(c, w) && Coherent(c, empty)
    requires StoreOk(secrets) && Readable(secrets, empty.daemon.keys.master, w.written)
    requires TagTables.TagsOk(tags) && forall l :: l in tags.links ==> IdTaken(secrets, l.0)
    requires secrets.Keys == w.daemon.disk.secrets.Keys
    requires forall p :: p in secrets ==> secrets[p].versions.Keys == w.daemon.disk.secrets[p].versions.Keys
    ensures Coherent(c, RestoredWorld(c, empty.daemon, caller, secrets, tags, w.written))
  {
    hide Logged, StoreOk, Readable, LogCoherent, TagTables.TagsOk, UnsealMaster;
    var d := empty.daemon.(disk := empty.daemon.disk.(secrets := secrets, tags := tags));
    LogCoherentOnlyReads(c, empty.daemon, d);
    LoggedKeepsLog(c, d, RecordEntry(caller, AuditEntries.Restore, None, None));
  }
}
