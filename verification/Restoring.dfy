/** Restoring a bundle into a store object, secret by secret. */
module Restoring {
  import opened ByteStrings
  import opened Paths
  import opened Envelope
  import opened SecretTables
  import TagTables
  import opened Stores
  import opened Backup

  /** The rows of one secret inserted so far, in a transaction still open. */
  ghost predicate InsertedSoFar(t: VersionTable, work: VersionTable, id: Id, vs: seq<ExportedVersion>) {
    && SameOutside(t, work, id)
    && ImportVersions(vs) == Ok(VersionsOf(work, id))
  }

  lemma InsertOne(t: VersionTable, work: VersionTable, id: Id, vs: seq<ExportedVersion>, v: ExportedVersion)
    requires InsertedSoFar(t, work, id, vs)
    ensures (id, v.version) in work || (v.state != Destroyed && v.sealed.None?) ==> ImportVersions(vs + [v]) == Err(Sqlite)
    ensures !((id, v.version) in work || (v.state != Destroyed && v.sealed.None?)) ==>
      InsertedSoFar(t, work[(id, v.version) := ImportedRow(v)], id, vs + [v])
  {
    hide ImportedRow;
    ReplacedVersion(work, id, v.version, ImportedRow(v));
    assert (vs + [v])[..|vs|] == vs;
  }

  lemma {:induction false} ImportFailureSticks(vs: seq<ExportedVersion>, k: nat)
    requires k <= |vs| && ImportVersions(vs[..k]).Err?
    ensures ImportVersions(vs) == ImportVersions(vs[..k])
  {
    hide ImportedRow;
    if k == |vs| {
      assert vs[..k] == vs;
    } else {
      var n := |vs| - 1;
      assert vs[..n][..k] == vs[..k];
      ImportFailureSticks(vs[..n], k);
    }
  }

  /** `import_secret_with_id` for payloads already sealed under `id`: one transaction, then the tags. */
  method ImportInto(store: Store, t: Target, id: Id, s: BundleSecret) returns (r: Result<(), StoreError>)
    requires store.Valid()
    modifies store`heads, store`versions, store`tags
    ensures store.Valid()
    ensures match ImportSecret(old(store.Joined()), old(store.tags), t, id, s)
      case Ok((secrets, tags)) => r == Ok(()) && store.Joined() == secrets && store.tags == tags
      case Err(error) => r == Err(error) && store.heads == old(store.heads)
                         && store.versions == old(store.versions) && store.tags == old(store.tags)
  {
    hide ImportVersions, InsertedSoFar, ValidPath, TablesOk, SameOutside, VersionsOf, ResealAll, ImportedRow, TagTables.AddTags;
    if s.path in store.heads {
      return Err(AlreadyExists);
    }
    TakenIds(store.heads, store.versions, id);
    if exists p :: p in store.heads && store.heads[p].id == id {
      return Err(Sqlite);
    }
    ghost var (heads0, versions0) := (store.heads, store.versions);
    var vs := ResealAll(t, id, s);
    var work := store.versions;
    NothingInserted(store.heads, store.versions, id);
    assert vs[..0] == [];
    for i := 0 to |vs|
      invariant unchanged(store) && InsertedSoFar(versions0, work, id, vs[..i])
    {
      assert vs[..i + 1] == vs[..i] + [vs[i]];
      InsertOne(versions0, work, id, vs[..i], vs[i]);
      if (id, vs[i].version) in work || (vs[i].state != Destroyed && vs[i].sealed.None?) {
        ImportFailureSticks(vs, i + 1);
        return Err(Sqlite);
      }
      work := work[(id, vs[i].version) := ImportedRow(vs[i])];
    }
    assert vs[..|vs|] == vs;
    Inserted(versions0, work, id, vs);
    var head := Head(id, s.current, s.maxVersions);
    JoinAfter(heads0, versions0, s.path, head, work);
    store.heads, store.versions := store.heads[s.path := head], work;
    var _ := store.AddTags(s.path, s.tags);
    return Ok(());
  }

  lemma NothingInserted(heads: Heads, t: VersionTable, id: Id)
    requires TablesOk(heads, t) && !HasHead(heads, id)
    ensures InsertedSoFar(t, t, id, [])
  {
  }

  lemma Inserted(t: VersionTable, work: VersionTable, id: Id, vs: seq<ExportedVersion>)
    requires InsertedSoFar(t, work, id, vs)
    ensures SameOutside(t, work, id) && ImportVersions(vs) == Ok(VersionsOf(work, id))
  {
  }

  /** Without secrets there are no links, and so no tags. */
  lemma EmptyStoreHasNoTags(tags: TagTables.Tables, heads: Heads)
    requires TagTables.TagsOk(tags) && heads == map[]
    requires forall l :: l in tags.links ==> HasHead(heads, l.0)
    ensures tags == TagTables.NO_TAGS
  {
  }

  /** How many versions a bundle carries in all. */
  function VersionCount(bundle: seq<BundleSecret>): nat {
    if bundle == [] then 0 else VersionCount(bundle[..|bundle| - 1]) + |bundle[|bundle| - 1].versions|
  }

  /**
   * The loop of `restore`. A store that holds a secret is left alone; a bundle that fails part-way leaves
   * the secrets before the one that failed, exactly as a restore of those alone would.
   */
  method RestoreInto(store: Store, t: Target, bundle: seq<BundleSecret>, ids: nat -> Id)
    returns (r: Result<nat, StoreError>, imported: nat)
    requires store.Valid() && TagTables.TagsOk(store.tags)
    requires forall l :: l in store.tags.links ==> HasHead(store.heads, l.0)
    modifies store`heads, store`versions, store`tags
    ensures store.Valid() && imported <= |bundle|
    ensures old(store.heads) != map[] ==> r.Err? && imported == 0 && unchanged(store)
    ensures old(store.heads) == map[] ==>
      && (r.Ok? <==> Restore(bundle, t, ids).Ok?)
      && (r.Ok? ==> imported == |bundle| && r.value == VersionCount(bundle))
      && (imported < |bundle| ==> Restore(bundle[..imported + 1], t, ids).Err?)
      && Restore(bundle[..imported], t, ids) == Ok((store.Joined(), store.tags))
  {
    hide ImportSecret, TagTables.TagsOk, TablesOk, ValidPath;
    imported := 0;
    if store.heads != map[] {
      return Err(AlreadyExists), 0;
    }
    EmptyStoreHasNoTags(store.tags, store.heads);
    assert bundle[..0] == [];
    var versions: nat := 0;
    while imported < |bundle|
      invariant store.Valid() && imported <= |bundle|
      invariant versions == VersionCount(bundle[..imported])
      invariant Restore(bundle[..imported], t, ids) == Ok((store.Joined(), store.tags))
    {
      assert bundle[..imported + 1][..imported] == bundle[..imported];
      var one := ImportInto(store, t, ids(imported), bundle[imported]);
      if one.Err? {
        RestoreFailureSticks(bundle, t, ids, imported + 1);
        return Err(one.error), imported;
      }
      versions := versions + |bundle[imported].versions|;
      imported := imported + 1;
    }
    assert bundle[..imported] == bundle;
    return Ok(versions), imported;
  }

  lemma {:induction false} RestoreFailureSticks(bundle: seq<BundleSecret>, t: Target, ids: nat -> Id, k: nat)
    requires k <= |bundle| && Restore(bundle[..k], t, ids).Err?
    ensures Restore(bundle, t, ids) == Restore(bundle[..k], t, ids)
  {
    hide ImportSecret;
    if k == |bundle| {
      assert bundle[..k] == bundle;
    } else {
      var n := |bundle| - 1;
      assert bundle[..n][..k] == bundle[..k];
      RestoreFailureSticks(bundle[..n], t, ids, k);
    }
  }
}
