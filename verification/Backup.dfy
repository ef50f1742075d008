/** Backing a store up in the clear inside a bundle, and restoring the bundle under other keys and ids. */
module Backup {
  import opened ByteStrings
  import opened Paths
  import opened Envelope
  import opened SecretTables
  import opened Rotation
  import TagTables

  datatype BundleVersion = BundleVersion(version: Version, state: VersionState, meta: Meta, value: Option<Bytes>)

  datatype BundleSecret = BundleSecret(
    path: SecretPath,
    tags: seq<TagTables.Tag>,
    maxVersions: U32,
    current: Option<Version>,
    versions: seq<BundleVersion>)

  // ----- what an operator can see of a store -----

  datatype VersionView = VersionView(state: VersionState, meta: Meta, value: Option<Bytes>)

  datatype SecretView = SecretView(
    tags: set<TagTables.Tag>,
    maxVersions: U32,
    current: Option<Version>,
    versions: map<Version, VersionView>)

  /** The decrypted value of a version, if it still holds one that opens. */
  function ValueOf(row: VersionRow, master: Key32, b: Binding): Option<Bytes> {
    if SealedOf(row).None? then None
    else
      var opened_ := Open(SealedOf(row).value, master, b);
      if opened_.Ok? then Some(opened_.value) else None
  }

  function ViewVersion(row: VersionRow, master: Key32, b: Binding): VersionView {
    VersionView(row.state, row.meta, ValueOf(row, master, b))
  }

  function ViewRow(row: SecretRow, tags: TagTables.Tables, master: Key32): SecretView {
    SecretView(TagTables.TagsOn(tags, row.id), row.maxVersions, row.current,
               map v | v in row.versions :: ViewVersion(row.versions[v], master, Binding(row.id, v)))
  }

  function View(secrets: Secrets, tags: TagTables.Tables, master: Key32): map<SecretPath, SecretView> {
    map p | p in secrets :: ViewRow(secrets[p], tags, master)
  }

  // ----- backing up -----

  function Exported(row: VersionRow, v: Version, master: Key32, b: Binding): BundleVersion {
    BundleVersion(v, row.state, row.meta, ValueOf(row, master, b))
  }

  /** `vs` lists the versions in `todo` of a row, each once, opened under `master`. */
  predicate ListsVersions(vs: seq<BundleVersion>, todo: set<Version>, row: SecretRow, master: Key32) {
    && (forall i, j :: 0 <= i < j < |vs| ==> vs[i].version != vs[j].version)
    && (forall i :: 0 <= i < |vs| ==>
          && vs[i].version in todo && vs[i].version in row.versions
          && vs[i] == Exported(row.versions[vs[i].version], vs[i].version, master, Binding(row.id, vs[i].version)))
    && (forall v :: v in todo ==> exists i :: 0 <= i < |vs| && vs[i].version == v)
  }

  predicate Carries(s: BundleSecret, row: SecretRow, tags: TagTables.Tables, master: Key32) {
    && (set t | t in s.tags) == TagTables.TagsOn(tags, row.id)
    && s.maxVersions == row.maxVersions && s.current == row.current
    && ListsVersions(s.versions, row.versions.Keys, row, master)
  }

  /** `bundle` lists the secrets in `todo`, each once. */
  predicate ListsSecrets(
    bundle: seq<BundleSecret>, todo: set<SecretPath>, secrets: Secrets, tags: TagTables.Tables, master: Key32)
  {
    && (forall i, j :: 0 <= i < j < |bundle| ==> bundle[i].path != bundle[j].path)
    && (forall i :: 0 <= i < |bundle| ==>
          bundle[i].path in todo && bundle[i].path in secrets
          && Carries(bundle[i], secrets[bundle[i].path], tags, master))
    && (forall p :: p in todo ==> exists i :: 0 <= i < |bundle| && bundle[i].path == p)
  }

  predicate IsBackup(bundle: seq<BundleSecret>, secrets: Secrets, tags: TagTables.Tables, master: Key32) {
    ListsSecrets(bundle, secrets.Keys, secrets, tags, master)
  }

  /** `exported_versions`: a payload with a column missing is none, a nonce of the wrong length an error. */
  function ExportSealed(row: VersionRow): Result<Option<SealedVersion>, StoreError> {
    if row.nonce.None? || row.ciphertext.None? || row.dekNonce.None? || row.wrappedDek.None? then Ok(None)
    else if |row.nonce.value| != 24 || |row.dekNonce.value| != 24 then Err(StoreError.Crypto)
    else
      Ok(Some(SealedVersion(row.ciphertext.value, row.nonce.value,
                            WrappedKey(row.wrappedDek.value, row.dekNonce.value, row.generation))))
  }

  /** A payload that is there but is malformed or does not open fails the whole backup. */
  predicate Opens(row: VersionRow, master: Key32, b: Binding) {
    && ExportSealed(row).Ok?
    && (ExportSealed(row).value.Some? ==> Open(ExportSealed(row).value.value, master, b).Ok?)
  }

  predicate RowOpens(row: SecretRow, master: Key32) {
    forall v :: v in row.versions ==> Opens(row.versions[v], master, Binding(row.id, v))
  }

  predicate EverythingOpens(secrets: Secrets, master: Key32) {
    forall p :: p in secrets ==> RowOpens(secrets[p], master)
  }

  lemma ExportedSealed(row: VersionRow)
    requires ExportSealed(row).Ok?
    ensures SealedOf(row) == ExportSealed(row).value
  {
  }

  predicate VersionsAscend(vs: seq<BundleVersion>) {
    forall i, j :: 0 <= i < j < |vs| ==> vs[i].version < vs[j].version
  }

  predicate PathsAscend(bundle: seq<BundleSecret>) {
    forall i, j :: 0 <= i < j < |bundle| ==> Precedes(bundle[i].path, bundle[j].path)
  }

  method LeastVersion(s: set<Version>) returns (v: Version)
    requires s != {}
    ensures v in s && forall u :: u in s ==> v <= u
  {
    v :| v in s;
    var rest := s - {v};
    while rest != {}
      invariant rest <= s && v in s
      invariant forall u :: u in s && u !in rest ==> v <= u
    {
      var u: Version :| u in rest;
      rest := rest - {u};
      if u < v {
        v := u;
      }
    }
  }

  lemma OneMoreVersion(
    vs: seq<BundleVersion>, next: BundleVersion, done: set<Version>, row: SecretRow, master: Key32)
    requires ListsVersions(vs, done, row, master)
    requires next.version in row.versions && next.version !in done
    requires next == Exported(row.versions[next.version], next.version, master, Binding(row.id, next.version))
    ensures ListsVersions(vs + [next], done + {next.version}, row, master)
  {
    hide Exported;
    var more := vs + [next];
    forall w | w in done + {next.version} ensures exists i :: 0 <= i < |more| && more[i].version == w {
      if w == next.version {
        assert more[|vs|].version == w;
      } else {
        var i :| 0 <= i < |vs| && vs[i].version == w;
        assert more[i].version == w;
      }
    }
  }

  method ExportVersions(row: SecretRow, master: Key32) returns (r: Result<seq<BundleVersion>, StoreError>)
    ensures r.Ok? <==> RowOpens(row, master)
    ensures r.Ok? ==> ListsVersions(r.value, row.versions.Keys, row, master) && VersionsAscend(r.value)
  {
    hide Open, ExportSealed, ListsVersions, SealedOf;
    var (rest, vs: seq<BundleVersion>) := (row.versions.Keys, []);
    ghost var done: set<Version> := {};
    NoVersionsListed(row, master);
    while rest != {}
      invariant rest + done == row.versions.Keys && rest !! done
      invariant ListsVersions(vs, done, row, master) && VersionsAscend(vs)
      invariant forall i, u :: 0 <= i < |vs| && u in rest ==> vs[i].version < u
      invariant forall v :: v in done ==> Opens(row.versions[v], master, Binding(row.id, v))
      decreases rest
    {
      var v := LeastVersion(rest);
      var (stored, b) := (row.versions[v], Binding(row.id, v));
      var value := None;
      var sealed := ExportSealed(stored);
      if sealed.Err? {
        assert !Opens(row.versions[v], master, b);
        return Err(sealed.error);
      }
      if sealed.value.Some? {
        var plaintext := Open(sealed.value.value, master, b);
        if plaintext.Err? {
          assert !Opens(row.versions[v], master, b);
          return Err(StoreError.Crypto);
        }
        value := Some(plaintext.value);
      }
      ExportedSealed(stored);
      var next := BundleVersion(v, stored.state, stored.meta, value);
      OneMoreVersion(vs, next, done, row, master);
      vs := vs + [next];
      rest, done := rest - {v}, done + {v};
    }
    assert done == row.versions.Keys;
    return Ok(vs);
  }

  lemma NoVersionsListed(row: SecretRow, master: Key32)
    ensures ListsVersions([], {}, row, master)
  {
  }

  method TagList(tags: TagTables.Tables, id: Id) returns (ts: seq<TagTables.Tag>)
    ensures (set t | t in ts) == TagTables.TagsOn(tags, id)
  {
    var rest := TagTables.TagsOn(tags, id);
    ts := [];
    while rest != {}
      invariant (set t | t in ts) + rest == TagTables.TagsOn(tags, id)
      decreases rest
    {
      var t :| t in rest;
      ts, rest := ts + [t], rest - {t};
    }
  }

  /** The loop over `export_secrets`, in the order of paths, opening every payload. */
  method BackUp(secrets: Secrets, tags: TagTables.Tables, master: Key32)
    returns (r: Result<seq<BundleSecret>, StoreError>)
    ensures r.Ok? <==> EverythingOpens(secrets, master)
    ensures r.Ok? ==> IsBackup(r.value, secrets, tags, master)
    ensures r.Ok? ==> PathsAscend(r.value) && forall i :: 0 <= i < |r.value| ==> VersionsAscend(r.value[i].versions)
  {
    hide RowOpens, Precedes, ListsVersions, VersionsAscend, ValidPath;
    var (rest, carried: seq<BundleSecret>) := (secrets.Keys, []);
    ghost var done: set<SecretPath> := {};
    while rest != {}
      invariant rest + done == secrets.Keys && rest !! done
      invariant ListsSecrets(carried, done, secrets, tags, master) && PathsAscend(carried)
      invariant forall i :: 0 <= i < |carried| ==> VersionsAscend(carried[i].versions)
      invariant forall i, q :: 0 <= i < |carried| && q in rest ==> Precedes(carried[i].path, q)
      invariant forall p :: p in done ==> RowOpens(secrets[p], master)
      decreases rest
    {
      var p := LeastPath(rest);
      var row := secrets[p];
      var versions := ExportVersions(row, master);
      if versions.Err? {
        return Err(versions.error);
      }
      var ts := TagList(tags, row.id);
      var s := BundleSecret(p, ts, row.maxVersions, row.current, versions.value);
      OneMoreSecret(carried, s, done, secrets, tags, master);
      carried := carried + [s];
      rest, done := rest - {p}, done + {p};
    }
    assert done == secrets.Keys;
    return Ok(carried);
  }

  /** Backing up a sound store whose payloads all open never fails. */
  lemma SoundStoreBacksUp(secrets: Secrets, master: Key32, written: Written)
    requires StoreOk(secrets) && Readable(secrets, master, written)
    ensures EverythingOpens(secrets, master)
  {
    forall p, v | p in secrets && v in secrets[p].versions
      ensures Opens(secrets[p].versions[v], master, Binding(secrets[p].id, v))
    {
      var row := secrets[p];
      assert RowOk(row) && RowReadable(row, master, p, written);
      assert PayloadOk(row.versions[v]);
    }
  }

  lemma OneMoreSecret(bundle: seq<BundleSecret>, s: BundleSecret, done: set<SecretPath>,
                      secrets: Secrets, tags: TagTables.Tables, master: Key32)
    requires ListsSecrets(bundle, done, secrets, tags, master)
    requires s.path in secrets && s.path !in done && Carries(s, secrets[s.path], tags, master)
    ensures ListsSecrets(bundle + [s], done + {s.path}, secrets, tags, master)
  {
    hide Carries;
    var more := bundle + [s];
    forall p | p in done + {s.path} ensures exists i :: 0 <= i < |more| && more[i].path == p {
      if p == s.path {
        assert more[|bundle|].path == p;
      } else {
        var i :| 0 <= i < |bundle| && bundle[i].path == p;
        assert more[i].path == p;
      }
    }
  }

  // ----- restoring -----

  /** Fresh randomness for each payload sealed again. */
  type Freshness = (SecretPath, Version) -> Fresh

  datatype ExportedVersion = ExportedVersion(
    version: Version, state: VersionState, meta: Meta, sealed: Option<SealedVersion>)

  /** Whom the restored payloads are sealed for. */
  datatype Target = Target(master: Key32, generation: U32, rnd: Freshness)

  function Reseal(t: Target, path: SecretPath, id: Id, v: BundleVersion): ExportedVersion {
    ExportedVersion(v.version, v.state, v.meta,
                    match v.value
                    case Some(plaintext) =>
                      Some(Seal(t.master, t.generation, Binding(id, v.version), plaintext, t.rnd(path, v.version)))
                    case None => None)
  }

  function ResealAll(t: Target, id: Id, s: BundleSecret): (vs: seq<ExportedVersion>)
    ensures |vs| == |s.versions|
    ensures forall i :: 0 <= i < |vs| ==> vs[i] == Reseal(t, s.path, id, s.versions[i])
  {
    seq(|s.versions|, i requires 0 <= i < |s.versions| => Reseal(t, s.path, id, s.versions[i]))
  }

  /** The row an exported version becomes: no payload means NULL columns and generation 0. */
  function ImportedRow(v: ExportedVersion): VersionRow {
    match v.sealed
    case Some(s) => RowOfSealed(s, v.meta).(state := v.state)
    case None => VersionRow(v.state, None, None, None, None, 0, v.meta)
  }

  /** The inserts of one secret; a repeated number or a payload missing from a live version breaks a constraint. */
  function ImportVersions(vs: seq<ExportedVersion>): Result<map<Version, VersionRow>, StoreError> {
    if vs == [] then Ok(map[])
    else
      var last := vs[|vs| - 1];
      match ImportVersions(vs[..|vs| - 1])
      case Err(error) => Err(error)
      case Ok(m) =>
        if last.version in m || (last.state != Destroyed && last.sealed.None?) then Err(Sqlite)
        else Ok(m[last.version := ImportedRow(last)])
  }

  ghost function ImportSecret(secrets: Secrets, tags: TagTables.Tables, t: Target, id: Id, s: BundleSecret)
    : Result<(Secrets, TagTables.Tables), StoreError>
  {
    if s.path in secrets then Err(AlreadyExists)
    else if IdTaken(secrets, id) then Err(Sqlite)
    else
      match ImportVersions(ResealAll(t, id, s))
      case Err(error) => Err(error)
      case Ok(m) =>
        Ok((secrets[s.path := SecretRow(id, s.current, s.maxVersions, m)], TagTables.AddTags(tags, id, s.tags)))
  }

  /**
   * A secret is imported exactly if its path and the id are free, its version numbers are distinct, and every live
   * version has a value.
   */
  lemma ImportSucceedsExactly(secrets: Secrets, tags: TagTables.Tables, t: Target, id: Id, s: BundleSecret)
    ensures var r := ImportSecret(secrets, tags, t, id, s);
      && (r == Err(AlreadyExists) <==> s.path in secrets)
      && (r.Ok? <==>
            && s.path !in secrets && !IdTaken(secrets, id)
            && (forall i, j :: 0 <= i < j < |s.versions| ==> s.versions[i].version != s.versions[j].version)
            && (forall i :: 0 <= i < |s.versions| ==> s.versions[i].state == Destroyed || s.versions[i].value.Some?))
  {
    hide Reseal, ImportedRow, IdTaken, ImportVersions, TagTables.AddTags, ValidPath;
    ResealAllKeepsFields(t, id, s);
    ImportsExactly(ResealAll(t, id, s));
    hide ResealAll;
  }

  lemma ResealAllKeepsFields(t: Target, id: Id, s: BundleSecret)
    ensures var vs := ResealAll(t, id, s);
      && |vs| == |s.versions|
      && forall i :: 0 <= i < |vs| ==>
           && vs[i].version == s.versions[i].version && vs[i].state == s.versions[i].state
           && (vs[i].sealed.Some? <==> s.versions[i].value.Some?)
  {
    hide Reseal;
    forall i | 0 <= i < |s.versions|
      ensures var x := ResealAll(t, id, s)[i];
        && x.version == s.versions[i].version && x.state == s.versions[i].state
        && (x.sealed.Some? <==> s.versions[i].value.Some?)
    {
      ResealKeepsFields(t, s.path, id, s.versions[i]);
    }
  }

  /** What was imported is what the bundle says: limit, current version, exactly its versions with states, provenance and values, and its tags. */
  lemma ImportedAsBundled(secrets: Secrets, tags: TagTables.Tables, t: Target, id: Id, s: BundleSecret)
    requires TagTables.TagsOk(tags) && ImportSecret(secrets, tags, t, id, s).Ok?
    ensures var (after, tags') := ImportSecret(secrets, tags, t, id, s).value;
      && OthersUntouched(secrets, after, s.path)
      && after[s.path].id == id && after[s.path].current == s.current && after[s.path].maxVersions == s.maxVersions
      && (forall v :: v in after[s.path].versions <==> exists i :: 0 <= i < |s.versions| && s.versions[i].version == v)
      && (forall i :: 0 <= i < |s.versions| ==>
            var v := s.versions[i];
            ViewVersion(after[s.path].versions[v.version], t.master, Binding(id, v.version))
            == VersionView(v.state, v.meta, v.value))
      && TagTables.TagsOn(tags', id) == TagTables.TagsOn(tags, id) + (set tag | tag in s.tags)
  {
    hide Reseal, ImportedRow, TagTables.TagsOk, TagTables.TagsOn, IdTaken, ImportVersions, ViewVersion, ValidPath;
    ImportSucceedsExactly(secrets, tags, t, id, s);
    ResealAllKeepsFields(t, id, s);
    TagTables.AddTagsMeans(tags, id, s.tags);
    hide TagTables.AddTags;
    var vs := ResealAll(t, id, s);
    ImportedVersions(vs);
    forall i | 0 <= i < |s.versions|
      ensures ViewVersion(ImportedRow(vs[i]), t.master, Binding(id, s.versions[i].version))
           == VersionView(s.versions[i].state, s.versions[i].meta, s.versions[i].value)
    {
      ResealedView(t, s.path, id, s.versions[i]);
    }
  }

  lemma ResealKeepsFields(t: Target, path: SecretPath, id: Id, v: BundleVersion)
    ensures var x := Reseal(t, path, id, v);
      && x.version == v.version && x.state == v.state && x.meta == v.meta && (x.sealed.Some? <==> v.value.Some?)
      && (v.value.Some? ==> Open(x.sealed.value, t.master, Binding(id, v.version)) == Ok(v.value.value))
  {
    if v.value.Some? {
      OpensOnlyInItsSlot(t.master, t.generation, Binding(id, v.version), v.value.value, t.rnd(path, v.version),
                         t.master, Binding(id, v.version));
    }
    hide Open;
  }

  lemma ResealedView(t: Target, path: SecretPath, id: Id, v: BundleVersion)
    ensures ViewVersion(ImportedRow(Reseal(t, path, id, v)), t.master, Binding(id, v.version))
         == VersionView(v.state, v.meta, v.value)
  {
    ResealKeepsFields(t, path, id, v);
    hide Open, Seal;
  }

  predicate Importable(vs: seq<ExportedVersion>) {
    && (forall i, j :: 0 <= i < j < |vs| ==> vs[i].version != vs[j].version)
    && (forall i :: 0 <= i < |vs| ==> vs[i].state == Destroyed || vs[i].sealed.Some?)
  }

  predicate Lists(vs: seq<ExportedVersion>, v: Version) {
    exists i :: 0 <= i < |vs| && vs[i].version == v
  }

  lemma ListsOneMore(vs: seq<ExportedVersion>, last: ExportedVersion)
    ensures forall v :: Lists(vs + [last], v) <==> Lists(vs, v) || v == last.version
    ensures Importable(vs + [last]) <==>
      Importable(vs) && !Lists(vs, last.version) && (last.state == Destroyed || last.sealed.Some?)
  {
    var more := vs + [last];
    assert more[|vs|] == last && forall i :: 0 <= i < |vs| ==> more[i] == vs[i];
    forall v ensures Lists(more, v) <==> Lists(vs, v) || v == last.version {
      if i :| 0 <= i < |vs| && vs[i].version == v {
        assert more[i].version == v;
      }
    }
  }

  lemma {:induction false} ImportsExactly(vs: seq<ExportedVersion>)
    ensures ImportVersions(vs).Ok? <==> Importable(vs)
    ensures ImportVersions(vs).Err? ==> ImportVersions(vs).error == Sqlite
    ensures ImportVersions(vs).Ok? ==> forall v :: v in ImportVersions(vs).value <==> Lists(vs, v)
  {
    hide ImportedRow;
    if vs != [] {
      var (init, last) := (vs[..|vs| - 1], vs[|vs| - 1]);
      ImportsExactly(init);
      assert vs == init + [last];
      ListsOneMore(init, last);
      hide Lists, Importable;
    }
  }

  /** The loop of `restore` over the bundle, into a store that holds no secrets. */
  ghost function Restore(bundle: seq<BundleSecret>, t: Target, ids: nat -> Id): Result<(Secrets, TagTables.Tables), StoreError> {
    if bundle == [] then Ok((map[], TagTables.NO_TAGS))
    else
      var n := |bundle| - 1;
      match Restore(bundle[..n], t, ids)
      case Err(error) => Err(error)
      case Ok((secrets, tags)) => ImportSecret(secrets, tags, t, ids(n), bundle[n])
  }

  // ----- a restored secret looks like the original -----

  lemma {:induction false} ImportedVersions(vs: seq<ExportedVersion>)
    requires forall i, j :: 0 <= i < j < |vs| ==> vs[i].version != vs[j].version
    requires forall i :: 0 <= i < |vs| && vs[i].state != Destroyed ==> vs[i].sealed.Some?
    ensures ImportVersions(vs).Ok?
    ensures var m := ImportVersions(vs).value;
      && (forall i :: 0 <= i < |vs| ==> vs[i].version in m && m[vs[i].version] == ImportedRow(vs[i]))
      && (forall v :: v in m ==> exists i :: 0 <= i < |vs| && vs[i].version == v)
  {
    if vs != [] {
      var n := |vs| - 1;
      var (init, last) := (vs[..n], vs[n]);
      ImportedVersions(init);
      var m := ImportVersions(init).value;
      forall i | 0 <= i < n ensures init[i].version != last.version {
        assert init[i] == vs[i];
      }
      var m' := ImportVersions(vs).value;
      forall v | v in m' ensures exists i :: 0 <= i < |vs| && vs[i].version == v {
        if v == last.version {
          assert vs[n].version == v;
        } else {
          var i :| 0 <= i < |init| && init[i].version == v;
          assert vs[i].version == v;
        }
      }
      forall i | 0 <= i < |vs| ensures vs[i].version in m' && m'[vs[i].version] == ImportedRow(vs[i]) {
        if i < n {
          assert init[i] == vs[i];
        }
      }
    }
  }

  /** One version through the bundle: same state, same provenance, same value, sealed for its new slot. */
  lemma ResealedVersion(t: Target, path: SecretPath, id: Id, v: BundleVersion)
    requires v.value.Some? <==> v.state != Destroyed
    ensures var row := ImportedRow(Reseal(t, path, id, v));
      && PayloadOk(row)
      && ViewVersion(row, t.master, Binding(id, v.version)) == VersionView(v.state, v.meta, v.value)
      && (v.value.Some? ==> OpensTo(row, t.master, Binding(id, v.version), v.value.value))
  {
  }

  /** Versions backed up from a sound row import again, number for number. */
  lemma RestoredVersions(t: Target, id: Id, s: BundleSecret, row: SecretRow, master: Key32, written: Written)
    requires RowOk(row) && RowReadable(row, master, s.path, written)
    requires ListsVersions(s.versions, row.versions.Keys, row, master)
    ensures var m := ImportVersions(ResealAll(t, id, s));
      && m.Ok? && m.value.Keys == row.versions.Keys
      && forall v :: v in row.versions ==>
           && PayloadOk(m.value[v])
           && ViewVersion(m.value[v], t.master, Binding(id, v)) == ViewVersion(row.versions[v], master, Binding(row.id, v))
           && (row.versions[v].state != Destroyed ==>
                 (s.path, v) in written && OpensTo(m.value[v], t.master, Binding(id, v), written[(s.path, v)]))
  {
    hide OpensTo, ImportVersions, Reseal, ImportedRow, PayloadOk, ViewVersion;
    var vs := ResealAll(t, id, s);
    forall i | 0 <= i < |vs|
      ensures vs[i].version == s.versions[i].version && vs[i].state == s.versions[i].state
      ensures vs[i].state != Destroyed ==> vs[i].sealed.Some?
      ensures s.versions[i].value == if s.versions[i].state == Destroyed then None
                                     else Some(written[(s.path, s.versions[i].version)])
      ensures s.versions[i].state != Destroyed ==> (s.path, s.versions[i].version) in written
    {
      ExportedValue(row, s.versions[i].version, master, s.path, written);
      ResealKeepsShape(t, s.path, id, s.versions[i]);
    }
    ImportedVersions(vs);
    var m := ImportVersions(vs).value;
    forall v | v in row.versions
      ensures v in m && PayloadOk(m[v])
      ensures ViewVersion(m[v], t.master, Binding(id, v)) == ViewVersion(row.versions[v], master, Binding(row.id, v))
      ensures row.versions[v].state != Destroyed ==>
        (s.path, v) in written && OpensTo(m[v], t.master, Binding(id, v), written[(s.path, v)])
    {
      var i :| 0 <= i < |s.versions| && s.versions[i].version == v;
      assert vs[i].version == v && m[v] == ImportedRow(vs[i]);
      ResealedVersion(t, s.path, id, s.versions[i]);
      ExportedLooksLike(row.versions[v], v, master, Binding(row.id, v));
    }
    forall v | v in m ensures v in row.versions {
      var i :| 0 <= i < |vs| && vs[i].version == v;
      assert s.versions[i].version == v;
    }
    assert m.Keys == row.versions.Keys;
  }

  lemma ResealKeepsShape(t: Target, path: SecretPath, id: Id, v: BundleVersion)
    ensures var e := Reseal(t, path, id, v);
      e.version == v.version && e.state == v.state && (e.sealed.Some? <==> v.value.Some?)
  {
  }

  lemma ExportedLooksLike(row: VersionRow, v: Version, master: Key32, b: Binding)
    ensures var e := Exported(row, v, master, b); ViewVersion(row, master, b) == VersionView(e.state, e.meta, e.value)
  {
  }

  lemma ExportedValue(row: SecretRow, v: Version, master: Key32, path: SecretPath, written: Written)
    requires RowOk(row) && RowReadable(row, master, path, written) && v in row.versions
    ensures var e := Exported(row.versions[v], v, master, Binding(row.id, v));
      && e.state == row.versions[v].state
      && (e.state != Destroyed ==> (path, v) in written)
      && e.value == if e.state == Destroyed then None else Some(written[(path, v)])
  {
  }

  // ----- the whole restore -----

  lemma RestoredRow(t: Target, id: Id, s: BundleSecret, row: SecretRow, m: map<Version, VersionRow>)
    requires RowOk(row) && s.current == row.current && s.maxVersions == row.maxVersions
    requires m.Keys == row.versions.Keys
    requires forall v :: v in m ==> PayloadOk(m[v]) && m[v].state == row.versions[v].state
    ensures RowOk(SecretRow(id, s.current, s.maxVersions, m))
  {
  }

  /** One secret of a backup, as a row under another id and key: sound, readable and looking as it did. */
  lemma ImportedRowSound(t: Target, id: Id, s: BundleSecret, row: SecretRow, tags: TagTables.Tables, master: Key32, written: Written)
    requires RowOk(row) && RowReadable(row, master, s.path, written) && Carries(s, row, tags, master)
    ensures ImportVersions(ResealAll(t, id, s)).Ok?
    ensures var row' := SecretRow(id, s.current, s.maxVersions, ImportVersions(ResealAll(t, id, s)).value);
      && RowOk(row') && RowReadable(row', t.master, s.path, written)
      && forall tags': TagTables.Tables :: TagTables.TagsOn(tags', id) == TagTables.TagsOn(tags, row.id) ==>
           ViewRow(row', tags', t.master) == ViewRow(row, tags, master)
  {
    hide ImportVersions, Reseal, TagTables.TagsOn, OpensTo, PayloadOk, ListsVersions;
    RestoredVersions(t, id, s, row, master, written);
    var m := ImportVersions(ResealAll(t, id, s)).value;
    forall v | v in m ensures m[v].state == row.versions[v].state {
      assert ViewVersion(m[v], t.master, Binding(id, v)).state == ViewVersion(row.versions[v], master, Binding(row.id, v)).state;
    }
    RestoredRow(t, id, s, row, m);
    hide RowOk, ViewVersion;
    var row' := SecretRow(id, s.current, s.maxVersions, m);
    forall tags': TagTables.Tables | TagTables.TagsOn(tags', id) == TagTables.TagsOn(tags, row.id)
      ensures ViewRow(row', tags', t.master) == ViewRow(row, tags, master)
    {
      assert ViewRow(row', tags', t.master).versions == ViewRow(row, tags, master).versions;
    }
  }

  lemma PutReadable(secrets: Secrets, path: SecretPath, row: SecretRow, master: Key32, written: Written)
    requires Readable(secrets, master, written) && RowReadable(row, master, path, written)
    ensures Readable(secrets[path := row], master, written)
  {
  }

  /** Importing that secret into a sound store. */
  lemma ImportedSecret(
    secrets': Secrets, tags': TagTables.Tables, t: Target, id: Id, s: BundleSecret,
    row: SecretRow, tags: TagTables.Tables, master: Key32, written: Written)
    requires RowOk(row) && RowReadable(row, master, s.path, written) && Carries(s, row, tags, master)
    requires StoreOk(secrets') && Readable(secrets', t.master, written) && TagTables.TagsOk(tags')
    requires s.path !in secrets' && !IdTaken(secrets', id)
    requires TagTables.TagsOn(tags', id) == {}
    ensures var r := ImportSecret(secrets', tags', t, id, s);
      && r.Ok?
      && var (after, tags'') := r.value;
      && s.path in after && after == secrets'[s.path := after[s.path]] && after[s.path].id == id
      && tags'' == TagTables.AddTags(tags', id, s.tags)
      && StoreOk(after) && Readable(after, t.master, written) && TagTables.TagsOk(tags'')
      && (forall other :: other != id ==> TagTables.TagsOn(tags'', other) == TagTables.TagsOn(tags', other))
      && ViewRow(after[s.path], tags'', t.master) == ViewRow(row, tags, master)
  {
    hide ImportVersions, ResealAll, TagTables.AddTags, TagTables.TagsOn, TagTables.TagsOk, RowOk, RowReadable, ListsVersions;
    hide StoreOk, Readable, ViewRow;
    ImportedRowSound(t, id, s, row, tags, master, written);
    TagTables.AddTagsMeans(tags', id, s.tags);
    var row' := SecretRow(id, s.current, s.maxVersions, ImportVersions(ResealAll(t, id, s)).value);
    PutRow(secrets', s.path, row');
    PutReadable(secrets', s.path, row', t.master, written);
  }

  /** What the restore loop has reached after the secrets of `bundle`. */
  ghost predicate Restored(
    bundle: seq<BundleSecret>, t: Target, ids: nat -> Id, secrets': Secrets, tags': TagTables.Tables,
    secrets: Secrets, tags: TagTables.Tables, master: Key32, written: Written)
  {
    && StoreOk(secrets') && Readable(secrets', t.master, written) && TagTables.TagsOk(tags')
    && (forall i :: 0 <= i < |bundle| ==>
          && bundle[i].path in secrets' && bundle[i].path in secrets
          && ViewRow(secrets'[bundle[i].path], tags', t.master) == ViewRow(secrets[bundle[i].path], tags, master))
    && (forall p :: p in secrets' ==>
          exists i :: 0 <= i < |bundle| && bundle[i].path == p && secrets'[p].id == ids(i))
    && (forall l :: l in tags'.links ==> exists i :: 0 <= i < |bundle| && l.0 == ids(i))
  }

  ghost predicate FreshIds(ids: nat -> Id, n: nat) {
    forall i, j :: 0 <= i < j < n ==> ids(i) != ids(j)
  }

  /** A list of distinct secrets, each as backed up, with a distinct id at hand for each. */
  ghost predicate Restorable(
    bundle: seq<BundleSecret>, ids: nat -> Id, secrets: Secrets, tags: TagTables.Tables, master: Key32)
  {
    && (forall i, j :: 0 <= i < j < |bundle| ==> bundle[i].path != bundle[j].path)
    && (forall i :: 0 <= i < |bundle| ==>
          bundle[i].path in secrets && Carries(bundle[i], secrets[bundle[i].path], tags, master))
    && FreshIds(ids, |bundle|)
  }

  lemma RestorablePrefix(
    init: seq<BundleSecret>, s: BundleSecret, ids: nat -> Id, secrets: Secrets, tags: TagTables.Tables, master: Key32)
    requires Restorable(init + [s], ids, secrets, tags, master)
    ensures Restorable(init, ids, secrets, tags, master)
    ensures forall i :: 0 <= i < |init| ==> init[i].path != s.path && ids(i) != ids(|init|)
    ensures s.path in secrets && Carries(s, secrets[s.path], tags, master)
  {
    hide Carries;
    var bundle := init + [s];
    assert bundle[|init|] == s;
    forall i | 0 <= i < |init| ensures bundle[i] == init[i] && init[i].path != s.path && ids(i) != ids(|init|) {
      assert bundle[i].path != bundle[|init|].path;
    }
  }

  lemma {:induction false} RestoreLoop(
    bundle: seq<BundleSecret>, t: Target, ids: nat -> Id,
    secrets: Secrets, tags: TagTables.Tables, master: Key32, written: Written)
    requires StoreOk(secrets) && Readable(secrets, master, written)
    requires Restorable(bundle, ids, secrets, tags, master)
    ensures var r := Restore(bundle, t, ids);
      r.Ok? && Restored(bundle, t, ids, r.value.0, r.value.1, secrets, tags, master, written)
  {
    hide Carries, Restored, ImportSecret, TagTables.TagsOk, Restorable, StoreOk, Readable;
    if bundle == [] {
      NothingRestored(t, ids, secrets, tags, master, written);
    } else {
      var n := |bundle| - 1;
      var (init, s) := (bundle[..n], bundle[n]);
      assert bundle == init + [s];
      RestorablePrefix(init, s, ids, secrets, tags, master);
      RestoreLoop(init, t, ids, secrets, tags, master, written);
      RestoreUnfolds(bundle, t, ids);
      var sofar := Restore(init, t, ids).value;
      RestoreStep(init, s, t, ids, sofar.0, sofar.1, secrets, tags, master, written);
    }
  }

  lemma NothingRestored(t: Target, ids: nat -> Id, secrets: Secrets, tags: TagTables.Tables, master: Key32, written: Written)
    ensures Restored([], t, ids, map[], TagTables.NO_TAGS, secrets, tags, master, written)
  {
  }

  lemma RestoreStep(
    init: seq<BundleSecret>, s: BundleSecret, t: Target, ids: nat -> Id,
    secrets': Secrets, tags': TagTables.Tables,
    secrets: Secrets, tags: TagTables.Tables, master: Key32, written: Written)
    requires StoreOk(secrets) && Readable(secrets, master, written)
    requires Restored(init, t, ids, secrets', tags', secrets, tags, master, written)
    requires forall i :: 0 <= i < |init| ==> init[i].path != s.path && ids(i) != ids(|init|)
    requires s.path in secrets && Carries(s, secrets[s.path], tags, master)
    ensures var r := ImportSecret(secrets', tags', t, ids(|init|), s);
      r.Ok? && Restored(init + [s], t, ids, r.value.0, r.value.1, secrets, tags, master, written)
  {
    hide Carries, ViewRow, ImportSecret, TagTables.TagsOk, RowOk, RowReadable;
    var id := ids(|init|);
    StillFresh(init, s, t, ids, secrets', tags', secrets, tags, master, written);
    hide TagTables.TagsOn;
    ImportedSecret(secrets', tags', t, id, s, secrets[s.path], tags, master, written);
    var (after, tags'') := ImportSecret(secrets', tags', t, id, s).value;
    hide StoreOk, Readable;
    OtherViewsStay(init, s, ids, t, secrets', tags', after, tags'', secrets, tags, master);
    TagTables.AddTagsLinks(tags', id, s.tags);
    RestoredGrows(init, s, t, ids, secrets', tags', after, tags'', secrets, tags, master, written);
  }

  /** The next secret's path and id are not in use, and no tag hangs on that id. */
  lemma StillFresh(
    init: seq<BundleSecret>, s: BundleSecret, t: Target, ids: nat -> Id,
    secrets': Secrets, tags': TagTables.Tables,
    secrets: Secrets, tags: TagTables.Tables, master: Key32, written: Written)
    requires Restored(init, t, ids, secrets', tags', secrets, tags, master, written)
    requires forall i :: 0 <= i < |init| ==> init[i].path != s.path && ids(i) != ids(|init|)
    ensures s.path !in secrets' && !IdTaken(secrets', ids(|init|))
    ensures TagTables.TagsOn(tags', ids(|init|)) == {}
  {
  }

  lemma RestoreUnfolds(bundle: seq<BundleSecret>, t: Target, ids: nat -> Id)
    requires bundle != [] && Restore(bundle[..|bundle| - 1], t, ids).Ok?
    ensures var (n, r) := (|bundle| - 1, Restore(bundle[..|bundle| - 1], t, ids).value);
      Restore(bundle, t, ids) == ImportSecret(r.0, r.1, t, ids(n), bundle[n])
  {
  }

  lemma RestoredGrows(
    init: seq<BundleSecret>, s: BundleSecret, t: Target, ids: nat -> Id,
    secrets': Secrets, tags': TagTables.Tables, after: Secrets, tags'': TagTables.Tables,
    secrets: Secrets, tags: TagTables.Tables, master: Key32, written: Written)
    requires Restored(init, t, ids, secrets', tags', secrets, tags, master, written)
    requires s.path in after && s.path in secrets
    requires after == secrets'[s.path := after[s.path]] && after[s.path].id == ids(|init|)
    requires StoreOk(after) && Readable(after, t.master, written) && TagTables.TagsOk(tags'')
    requires ViewRow(after[s.path], tags'', t.master) == ViewRow(secrets[s.path], tags, master)
    requires forall i :: 0 <= i < |init| ==>
      init[i].path in after
      && ViewRow(after[init[i].path], tags'', t.master) == ViewRow(secrets[init[i].path], tags, master)
    requires forall l :: l in tags''.links ==> l in tags'.links || l.0 == ids(|init|)
    ensures Restored(init + [s], t, ids, after, tags'', secrets, tags, master, written)
  {
    hide StoreOk, Readable, TagTables.TagsOk, ViewRow;
    IdsGrow(init, s, ids, secrets', after);
    LinksGrow(init, s, ids, tags', tags'');
  }

  lemma IdsGrow(init: seq<BundleSecret>, s: BundleSecret, ids: nat -> Id, secrets': Secrets, after: Secrets)
    requires s.path in after && after == secrets'[s.path := after[s.path]] && after[s.path].id == ids(|init|)
    requires forall p :: p in secrets' ==>
      exists i :: 0 <= i < |init| && init[i].path == p && secrets'[p].id == ids(i)
    ensures var bundle := init + [s];
      forall p :: p in after ==> exists i :: 0 <= i < |bundle| && bundle[i].path == p && after[p].id == ids(i)
  {
  }

  lemma LinksGrow(init: seq<BundleSecret>, s: BundleSecret, ids: nat -> Id, tags': TagTables.Tables, tags'': TagTables.Tables)
    requires forall l :: l in tags'.links ==> exists i :: 0 <= i < |init| && l.0 == ids(i)
    requires forall l :: l in tags''.links ==> l in tags'.links || l.0 == ids(|init|)
    ensures forall l :: l in tags''.links ==> exists i :: 0 <= i < |init + [s]| && l.0 == ids(i)
  {
  }

  lemma OtherViewsStay(
    init: seq<BundleSecret>, s: BundleSecret, ids: nat -> Id, t: Target,
    secrets': Secrets, tags': TagTables.Tables, after: Secrets, tags'': TagTables.Tables,
    secrets: Secrets, tags: TagTables.Tables, master: Key32)
    requires s.path in after && after == secrets'[s.path := after[s.path]]
    requires forall i :: 0 <= i < |init| ==> init[i].path in secrets' && init[i].path in secrets && init[i].path != s.path
    requires forall i :: 0 <= i < |init| ==>
      ViewRow(secrets'[init[i].path], tags', t.master) == ViewRow(secrets[init[i].path], tags, master)
    requires forall p :: p in secrets' ==> secrets'[p].id != after[s.path].id
    requires forall other :: other != after[s.path].id ==> TagTables.TagsOn(tags'', other) == TagTables.TagsOn(tags', other)
    ensures forall i :: 0 <= i < |init| ==>
      ViewRow(after[init[i].path], tags'', t.master) == ViewRow(secrets[init[i].path], tags, master)
  {
  }

  /**
   * Restoring a backup of a sound store into an empty one, under any master key and fresh ids, gives the
   * same paths, tags, limits, current versions, version numbers, states and values, and the next write to
   * each path takes the same number.
   */
  lemma RestoreReproducesTheStore(
    bundle: seq<BundleSecret>, t: Target, ids: nat -> Id,
    secrets: Secrets, tags: TagTables.Tables, master: Key32, written: Written)
    requires StoreOk(secrets) && Readable(secrets, master, written)
    requires IsBackup(bundle, secrets, tags, master) && FreshIds(ids, |bundle|)
    ensures Restore(bundle, t, ids).Ok?
    ensures var (secrets', tags') := Restore(bundle, t, ids).value;
      && View(secrets', tags', t.master) == View(secrets, tags, master)
      && StoreOk(secrets') && Readable(secrets', t.master, written) && TagTables.TagsOk(tags')
      && (forall l :: l in tags'.links ==> IdTaken(secrets', l.0))
      && forall p :: p in secrets ==> p in secrets' && SameNextVersion(secrets', secrets, p)
  {
    hide Carries, ViewRow, StoreOk, Readable, TagTables.TagsOk, Restore, SameNextVersion, ValidPath;
    RestoreLoop(bundle, t, ids, secrets, tags, master, written);
    var (secrets', tags') := Restore(bundle, t, ids).value;
    RestoredLooksLike(bundle, t, ids, secrets', tags', secrets, tags, master, written);
    RestoredLinks(bundle, t, ids, secrets', tags', secrets, tags, master, written);
  }

  lemma RestoredLinks(
    bundle: seq<BundleSecret>, t: Target, ids: nat -> Id, secrets': Secrets, tags': TagTables.Tables,
    secrets: Secrets, tags: TagTables.Tables, master: Key32, written: Written)
    requires IsBackup(bundle, secrets, tags, master)
    requires Restored(bundle, t, ids, secrets', tags', secrets, tags, master, written)
    ensures forall l :: l in tags'.links ==> IdTaken(secrets', l.0)
  {
    hide Carries, ViewRow, StoreOk, Readable, TagTables.TagsOk, ValidPath;
    forall l | l in tags'.links ensures IdTaken(secrets', l.0) {
      var i :| 0 <= i < |bundle| && l.0 == ids(i);
      var p := bundle[i].path;
      var j :| 0 <= j < |bundle| && bundle[j].path == p && secrets'[p].id == ids(j);
      assert i == j;
      assert secrets'[p].id == l.0;
    }
  }

  lemma RestoredLooksLike(
    bundle: seq<BundleSecret>, t: Target, ids: nat -> Id, secrets': Secrets, tags': TagTables.Tables,
    secrets: Secrets, tags: TagTables.Tables, master: Key32, written: Written)
    requires IsBackup(bundle, secrets, tags, master)
    requires Restored(bundle, t, ids, secrets', tags', secrets, tags, master, written)
    ensures View(secrets', tags', t.master) == View(secrets, tags, master)
    ensures forall p :: p in secrets ==> p in secrets' && SameNextVersion(secrets', secrets, p)
  {
    hide Carries, ViewRow, StoreOk, Readable, TagTables.TagsOk, SameNextVersion, ValidPath;
    forall p ensures p in secrets' <==> p in secrets {
      if p in secrets {
        var i :| 0 <= i < |bundle| && bundle[i].path == p;
      }
    }
    assert secrets'.Keys == secrets.Keys;
    forall p | p in secrets
      ensures ViewRow(secrets'[p], tags', t.master) == ViewRow(secrets[p], tags, master)
      ensures SameNextVersion(secrets', secrets, p)
    {
      var i :| 0 <= i < |bundle| && bundle[i].path == p;
      SameViewSameHighest(secrets'[p], tags', t.master, secrets[p], tags, master);
      SameHighestSameNext(secrets', secrets, p);
    }
  }

  /** The next write to `p` takes the same number in both stores, or is refused in both. */
  ghost predicate SameNextVersion(a: Secrets, b: Secrets, p: SecretPath) {
    forall id: Id ::
      var (x, y) := (BeginWrite(a, p, id), BeginWrite(b, p, id));
      (x.Ok? <==> y.Ok?) && (x.Ok? ==> x.value.version == y.value.version)
  }

  lemma SameHighestSameNext(a: Secrets, b: Secrets, p: SecretPath)
    requires p in a && p in b && Highest(a[p].versions) == Highest(b[p].versions)
    ensures SameNextVersion(a, b, p)
  {
  }

  lemma SameViewSameHighest(
    r: SecretRow, rTags: TagTables.Tables, rMaster: Key32, s: SecretRow, sTags: TagTables.Tables, sMaster: Key32)
    requires ViewRow(r, rTags, rMaster) == ViewRow(s, sTags, sMaster)
    ensures Highest(r.versions) == Highest(s.versions)
  {
    hide ViewVersion, TagTables.TagsOn;
    assert r.versions.Keys == ViewRow(r, rTags, rMaster).versions.Keys;
    assert s.versions.Keys == ViewRow(s, sTags, sMaster).versions.Keys;
  }
}
