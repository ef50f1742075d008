/** The running daemon as an object over its store, its audit table and its keys; every handler refines its step. */
module Handlers {
  import opened ByteStrings
  import opened Paths
  import opened Envelope
  import opened SecretTables
  import opened Rotation
  import opened TagTables
  import opened Policy
  import opened Daemon
  import AuditEntries
  import AuditLog
  import opened AuditTables
  import opened Stores
  import opened ResolveRoute
  import Backup
  import opened Recovery
  import opened Restoring

  /** No policy prohibits listing the secret and some policy grants it, with the tags it carries. */
  ghost predicate MayList(secrets: Secrets, tags: Tables, policies: seq<Document>, p: SecretPath)
    requires p in secrets
  {
    var r := Request(p, Capability.List, TagsOn(tags, secrets[p].id));
    !Prohibited(policies, r) && Granted(policies, r)
  }

  predicate Visible(policies: seq<Document>, s: Summary) {
    Evaluate(policies, Request(s.path, Capability.List, s.tags)).Allow?
  }

  function FilterVisible(policies: seq<Document>, found: seq<Summary>): seq<Summary> {
    if found == [] then []
    else (if Visible(policies, found[0]) then [found[0]] else []) + FilterVisible(policies, found[1..])
  }

  lemma {:induction false} FilteredInOrder(policies: seq<Document>, found: seq<Summary>)
    requires InOrder(found)
    ensures InOrder(FilterVisible(policies, found))
    ensures forall s :: s in FilterVisible(policies, found) <==> s in found && Visible(policies, s)
  {
    hide Visible, Precedes, ValidPath;
    if found != [] {
      FilteredInOrder(policies, found[1..]);
      assert found == [found[0]] + found[1..];
      var rest := FilterVisible(policies, found[1..]);
      forall j | 0 <= j < |rest| ensures Precedes(found[0].path, rest[j].path) {
        assert rest[j] in found[1..];
      }
    }
  }

  lemma ShownAreVisible(
    secrets: Secrets, tags: Tables, filter: ListFilter, policies: seq<Document>, found: seq<Summary>)
    requires InOrder(found) && Accurate(found, secrets, tags)
    requires forall p :: Shows(found, p) <==> Selected(secrets, tags, filter, p)
    ensures var visible := FilterVisible(policies, found);
      && InOrder(visible) && Accurate(visible, secrets, tags)
      && forall p :: Shows(visible, p) <==>
           Selected(secrets, tags, filter, p) && MayList(secrets, tags, policies, p)
  {
    hide Evaluate, Prohibited, Granted, TagsOn, CountRetained, ValidPath, Precedes, FilterVisible;
    FilteredInOrder(policies, found);
    var visible := FilterVisible(policies, found);
    forall i | 0 <= i < |visible|
      ensures visible[i].path in secrets && visible[i] == SummaryOf(visible[i].path, secrets[visible[i].path], tags)
    {
      assert visible[i] in found;
      var k :| 0 <= k < |found| && found[k] == visible[i];
    }
    forall p
      ensures Shows(visible, p) <==> Selected(secrets, tags, filter, p) && MayList(secrets, tags, policies, p)
    {
      if p in secrets {
        var s := SummaryOf(p, secrets[p], tags);
        DecisionMeans(policies, Request(p, Capability.List, s.tags));
        ShowsExactly(found, secrets, tags, p);
        ShowsExactly(visible, secrets, tags, p);
      }
    }
  }

  lemma ShowsExactly(r: seq<Summary>, secrets: Secrets, tags: Tables, p: SecretPath)
    requires Accurate(r, secrets, tags) && p in secrets
    ensures Shows(r, p) <==> SummaryOf(p, secrets[p], tags) in r
  {
    hide TagsOn, CountRetained, ValidPath;
  }

  class DaemonState {
    const crypto: Crypto
    const kek: Key32
    const store: Store
    const audit: AuditTable
    var keys: KeyMaterial
    ghost var written: Written

    /** `init` for an empty store, then its first audit entry. */
    constructor (crypto: Crypto, kek: Key32, master: Key32, nonce: Nonce, now: I64)
      ensures fresh(store) && fresh(audit) && store.Valid()
      ensures this.crypto == crypto && Abstract() == Initial(crypto, kek, master, nonce, now)
    {
      hide AuditLog.Append;
      var s := new Store();
      var a := new AuditTable();
      this.crypto, this.kek, store, audit := crypto, kek, s, a;
      keys := KeyMaterial(master, crypto.auditKeyOf(master), 1);
      written := map[];
      new;
      store.sealedMaster := Some(SealMaster(kek, master, 1, nonce));
      var _ := audit.Append(crypto.mac, keys.auditKey,
        AuditEntries.Entry(now, None, None, None, AuditEntries.Init, None, None, AuditEntries.Success, None));
    }

    function View(): State
      reads this, store, audit
    {
      State(kek, keys, Disk(store.sealedMaster, store.Joined(), store.tags, audit.Contents()))
    }

    ghost function Abstract(): World
      reads this, store, audit
    {
      World(View(), written)
    }

    /** Room for one more entry: without it a handler reports an error after its work is done. */
    predicate CanRecord()
      reads this, audit
    {
      AuditLog.CanAppend(audit.Contents())
    }

    method Record(e: AuditEntries.Entry) returns (ok: bool)
      modifies audit
      ensures ok <==> old(CanRecord())
      ensures Abstract() == old(Abstract()).(daemon := Logged(crypto, old(View()), e))
    {
      hide AuditLog.Append;
      AuditLog.AppendSucceedsExactly(crypto.mac, keys.auditKey, audit.Contents(), e);
      var r := audit.Append(crypto.mac, keys.auditKey, e);
      ok := r.Ok?;
    }

    method Write(e: Event) returns (r: Result<Version, StoreError>)
      requires e.Write? && store.Valid()
      modifies store`heads, store`versions, store`tags, audit, this`written
      ensures store.Valid() && Abstract() == Step(crypto, old(Abstract()), e)
      ensures r.Ok? <==> BeginWrite(old(store.Joined()), e.path, e.newId).Ok? && old(CanRecord())
      ensures r.Ok? ==> Abstract().written == old(written)[(e.path, r.value) := e.plaintext]
    {
      hide BeginWrite, Commit, Seal, Logged, TagTables.AddTags, RecordEntry, AuditLog.CanAppend;
      var begun := store.BeginWrite(e.path, e.newId);
      if begun.Err? {
        return Err(begun.error);
      }
      var slot := begun.value;
      ReservedSlot(store.Joined(), e.path, e.newId);
      var sealed := Seal(keys.master, keys.generation, SlotBinding(slot), e.plaintext, e.rnd);
      var version := store.Commit(slot, sealed, e.meta);
      CommittedHead(store, slot, sealed, e.meta);
      if e.tags != [] {
        var _ := store.AddTags(e.path, e.tags);
      }
      written := written[(e.path, version) := e.plaintext];
      var ok := Record(RecordEntry(e.caller, AuditEntries.Write, Some(e.path), Some(version)));
      return if ok then Ok(version) else Err(Sqlite);
    }

    method Read(e: Event) returns (r: Result<(Version, Bytes), StoreError>)
      requires e.Read?
      modifies audit
      ensures old(CanRecord()) || ReadValue(old(View()), e.path, e.selector).Err? ==>
        r == ReadValue(old(View()), e.path, e.selector)
      ensures !old(CanRecord()) ==> r.Err?
      ensures Abstract() == Step(crypto, old(Abstract()), e)
    {
      hide SecretTables.ReadVersion, Open, Logged, RecordEntry, AuditLog.CanAppend;
      var stored := store.ReadVersion(e.path, e.selector);
      if stored.Err? {
        return Err(stored.error);
      }
      var plain := Open(stored.value.sealed, keys.master, stored.value.binding);
      if plain.Err? {
        return Err(StoreError.Crypto);
      }
      var ok := Record(RecordEntry(e.caller, AuditEntries.Read, Some(e.path), Some(stored.value.version)));
      return if ok then Ok((stored.value.version, plain.value)) else Err(Sqlite);
    }

    method RollBack(e: Event) returns (r: Result<(), StoreError>)
      requires e.RollBack? && store.Valid()
      modifies store`heads, audit
      ensures store.Valid() && Abstract() == Step(crypto, old(Abstract()), e)
      ensures r.Ok? <==> SecretTables.Rollback(old(store.Joined()), e.path, e.to).Ok? && old(CanRecord())
    {
      hide SecretTables.Rollback, Logged, RecordEntry, AuditLog.CanAppend;
      r := store.Rollback(e.path, e.to);
      if r.Ok? {
        var ok := Record(RecordEntry(e.caller, AuditEntries.Rollback, Some(e.path), Some(e.to)));
        r := if ok then r else Err(Sqlite);
      }
    }

    method Delete(e: Event) returns (r: Result<Version, StoreError>)
      requires e.Delete? && store.Valid()
      modifies store`heads, store`versions, audit
      ensures store.Valid() && Abstract() == Step(crypto, old(Abstract()), e)
      ensures var d := SecretTables.DeleteVersion(old(store.Joined()), e.path, e.selector, e.mode);
        (r.Ok? <==> d.Ok? && old(CanRecord())) && (r.Ok? ==> r.value == d.value.1)
    {
      hide SecretTables.DeleteVersion, Logged, RecordEntry, AuditLog.CanAppend;
      r := store.DeleteVersion(e.path, e.selector, e.mode);
      if r.Ok? {
        var ok := Record(RecordEntry(e.caller, AuditEntries.Delete, Some(e.path), Some(r.value)));
        r := if ok then r else Err(Sqlite);
      }
    }

    method ChangeTags(e: Event) returns (r: Result<(), StoreError>)
      requires e.AddTags? || e.RemoveTags?
      modifies store`tags, audit
      ensures Abstract() == Step(crypto, old(Abstract()), e)
      ensures r.Ok? <==> e.path in store.Joined() && old(CanRecord())
    {
      hide TagTables.AddTags, TagTables.RemoveTags, Logged, RecordEntry, AuditLog.CanAppend;
      if e.AddTags? {
        r := store.AddTags(e.path, e.tags);
      } else {
        r := store.RemoveTags(e.path, e.selectors);
      }
      if r.Ok? {
        var ok := Record(RecordEntry(e.caller, AuditEntries.Tag, Some(e.path), None));
        r := if ok then r else Err(Sqlite);
      }
    }

    /**
     * A listing shows a secret exactly when the filter selects it and the caller's policies let it be listed, in
     * the order of paths and with what the store holds of it.
     */
    method List(caller: Caller, policies: seq<Document>, filter: ListFilter) returns (r: Result<seq<Summary>, StoreError>)
      modifies audit
      ensures r.Ok? <==> old(CanRecord())
      ensures r.Ok? ==>
        && InOrder(r.value) && Accurate(r.value, store.Joined(), store.tags)
        && forall p :: Shows(r.value, p) <==>
             Selected(store.Joined(), store.tags, filter, p) && MayList(store.Joined(), store.tags, policies, p)
      ensures Abstract() == Step(crypto, old(Abstract()), Observe(caller, AuditEntries.List, None))
    {
      hide Logged, RecordEntry, Selected, MayList, InOrder, Accurate, Shows, FilterVisible, AuditLog.CanAppend;
      var found := store.List(filter);
      var visible := FilterVisible(policies, found);
      ShownAreVisible(store.Joined(), store.tags, filter, policies, found);
      var ok := Record(RecordEntry(caller, AuditEntries.List, None, None));
      return if ok then Ok(visible) else Err(Sqlite);
    }

    /** The batch read, judged against the daemon as it stands. */
    method Resolve(s: Session, targets: seq<Target>, start: int, clock: seq<int>)
      returns (r: Result<seq<Resolved>, Failure>)
      requires s.daemon == View() && |clock| == |targets|
      modifies audit
      ensures (r, View()) == ResolveSecrets(crypto, s, targets, start, clock)
      ensures Abstract() == Step(crypto, old(Abstract()), BatchEvent(s, targets, r))
    {
      hide Gather, AuditLog.CanAppend, RecordEntry, RefusalEntry, BatchEvent, AuditLog.Append, Step;
      BatchIsAStep(crypto, s, written, targets, start, clock);
      r := GatherBatch(s, targets, start, clock);
      match r {
        case Err(DeniedBy(denied, about)) =>
          var _ := Record(RefusalEntry(s.caller, about, AuditDetail(denied)));
        case Err(_) =>
        case Ok(_) =>
          var entry := RecordEntry(s.caller, AuditEntries.Resolve, None, None);
          AuditLog.AppendSucceedsExactly(crypto.mac, keys.auditKey, audit.Contents(), entry);
          var ok := Record(entry);
          r := if ok then r else Err(Audit);
      }
    }

    // ----- backup and restore -----

    method BackUp(caller: Caller) returns (r: Result<seq<Backup.BundleSecret>, StoreError>)
      modifies audit
      ensures var opens := Backup.EverythingOpens(store.Joined(), keys.master);
        && (r.Ok? <==> opens && old(CanRecord()))
        && Abstract() == if opens then Step(crypto, old(Abstract()), Observe(caller, AuditEntries.Backup, None))
                         else old(Abstract())
      ensures r.Ok? ==> Backup.IsBackup(r.value, store.Joined(), store.tags, keys.master) && Backup.PathsAscend(r.value)
    {
      hide Backup.EverythingOpens, Backup.IsBackup, Backup.PathsAscend, Logged, RecordEntry, AuditLog.CanAppend;
      r := Backup.BackUp(store.Joined(), store.tags, keys.master);
      if r.Ok? {
        var ok := Record(RecordEntry(caller, AuditEntries.Backup, None, None));
        r := if ok then r else Err(Sqlite);
      }
    }

    /** `source` is what the secrets of the bundle were written with, for the specification only. */
    method Restore(caller: Caller, bundle: seq<Backup.BundleSecret>, rnd: Backup.Freshness, ids: nat -> Id, ghost source: Written)
      returns (r: Result<nat, StoreError>)
      requires store.Valid() && TagsOk(store.tags) && forall l :: l in store.tags.links ==> HasHead(store.heads, l.0)
      modifies store`heads, store`versions, store`tags, audit, this`written
      ensures store.Valid()
      ensures var restored := Backup.Restore(bundle, Backup.Target(keys.master, keys.generation, rnd), ids);
        var fits := old(store.heads) == map[] && restored.Ok?;
        && (r.Ok? <==> fits && old(CanRecord()))
        && (r.Ok? ==> r.value == VersionCount(bundle))
        && (fits ==> Abstract() == RestoredWorld(crypto, old(View()), caller, restored.value.0, restored.value.1, source))
      ensures old(store.heads) != map[] ==> Abstract() == old(Abstract())
    {
      hide Backup.Restore, Logged, RecordEntry, AuditLog.CanAppend, TagsOk, TablesOk, Join;
      var t := Backup.Target(keys.master, keys.generation, rnd);
      var versions, imported := RestoreInto(store, t, bundle, ids);
      if versions.Err? {
        return Err(versions.error);
      }
      assert bundle[..|bundle|] == bundle;
      written := source;
      var ok := Record(RecordEntry(caller, AuditEntries.Restore, None, None));
      return if ok then versions else Err(Sqlite);
    }

    // ----- rotation -----

    /** Memory agrees with the store afterwards exactly when what is adopted is what the store recorded. */
    method AdoptRotatedKey(master: Key32, generation: U32)
      modifies this`keys
      ensures keys == KeyMaterial(master, crypto.auditKeyOf(master), generation)
      ensures KeysCoherent(crypto, View()) <==>
        && store.sealedMaster.Some?
        && UnsealMaster(kek, store.sealedMaster.value) == Ok(master)
        && store.sealedMaster.value.generation == generation
      ensures forall now, uid :: KeysCoherent(crypto, View()) ==>
        RestartStep(crypto, View(), Restart(now, uid)).keys == keys
    {
      hide UnsealMaster, AuditLog.Append;
      keys := KeyMaterial(master, crypto.auditKeyOf(master), generation);
    }

    /** Chain first, then data keys and sealed master key, then memory, then the audit entry. */
    method Rekey(e: Event) returns (rotated: bool, recorded: bool)
      requires e.Rekey? && store.Valid()
      modifies store`versions, store`sealedMaster, audit, this`keys
      ensures store.Valid() && Abstract() == Step(crypto, old(Abstract()), e)
      ensures rotated ==> keys.master == e.successor && keys.generation == old(keys.generation) + 1
      ensures !rotated ==> keys == old(keys) && !recorded
    {
      hide RotateAll, AuditLog.RekeyChain, Logged, RecordEntry, SealMaster, AuditLog.CanAppend, UnsealMaster;
      rotated, recorded := false, false;
      if keys.generation + 1 == U32_LIMIT {
        return;
      }
      var generation := keys.generation + 1;
      var sealed := SealMaster(kek, e.successor, generation, e.sealNonce);
      var entries := audit.RekeyChain(crypto.mac, keys.auditKey, crypto.auditKeyOf(e.successor));
      if entries.Err? {
        return;
      }
      var report := store.RekeyWith(Rotor(keys.master, e.successor, generation, e.nonces), sealed);
      if report.Err? {
        return;
      }
      AdoptRotatedKey(e.successor, generation);
      LoggedKeepsKeys(crypto, View(), RecordEntry(e.caller, AuditEntries.Rekey, None, None));
      rotated := true;
      recorded := Record(RecordEntry(e.caller, AuditEntries.Rekey, None, None));
    }
  }

  lemma LoggedKeepsKeys(c: Crypto, d: State, e: AuditEntries.Entry)
    ensures Logged(c, d, e).keys == d.keys
  {
  }

  /** A reserved slot names the path it was asked for, and is what the same call gives for its own id. */
  lemma ReservedSlot(secrets: Secrets, path: SecretPath, newId: Id)
    requires BeginWrite(secrets, path, newId).Ok?
    ensures var slot := BeginWrite(secrets, path, newId).value;
      slot.path == path && BeginWrite(secrets, path, slot.row.id) == Ok(slot)
  {
  }

  lemma CommittedHead(store: Store, slot: Slot, sealed: SealedVersion, meta: Meta)
    requires exists before: Secrets :: store.Joined() == Commit(before, slot, sealed, meta)
    ensures slot.path in store.heads && store.heads[slot.path].id == slot.row.id
  {
    var before: Secrets :| store.Joined() == Commit(before, slot, sealed, meta);
    assert store.Joined()[slot.path].id == slot.row.id;
  }
}
