/** The `secrets` and `secret_versions` tables as values: what each store operation does to them. */
module SecretTables {
  import opened ByteStrings
  import opened Paths
  import opened Envelope

  datatype VersionState = Active | Deleted | Destroyed

  /** Provenance kept with a version. */
  datatype Meta = Meta(createdAt: int, createdBy: Option<string>, comment: Option<string>)

  /** The four payload columns are nullable in the schema. */
  datatype VersionRow = VersionRow(
    state: VersionState,
    nonce: Option<Bytes>,
    ciphertext: Option<Cipher>,
    dekNonce: Option<Bytes>,
    wrappedDek: Option<Cipher>,
    generation: U32,
    meta: Meta)

  /** A row of `secrets` with its rows of `secret_versions`, joined on the foreign key. */
  datatype SecretRow = SecretRow(
    id: Id,
    current: Option<Version>,
    maxVersions: U32,
    versions: map<Version, VersionRow>)

  /** The path column is UNIQUE. */
  type Secrets = map<SecretPath, SecretRow>

  datatype StoreError = NotFound | AlreadyExists | CorruptStore | InvalidVersion | Crypto | Sqlite

  datatype Selector = Current | Exact(version: Version)

  datatype DeleteMode = Soft | Destroy

  datatype StoredVersion = StoredVersion(binding: Binding, sealed: SealedVersion, version: Version)

  const DEFAULT_MAX_VERSIONS: U32 := 10

  // ----- version numbers -----

  /** The largest of a set of version numbers, 0 for none: `COALESCE(MAX(version), 0)`. */
  ghost function MaxOf(s: set<Version>): (m: nat)
    ensures forall v :: v in s ==> v <= m
    ensures m == 0 || m in s
    ensures m == 0 <==> s == {}
  {
    if s == {} then 0
    else
      var v :| v in s;
      var rest := MaxOf(s - {v});
      assert forall w :: w in s ==> w == v || w in s - {v};
      if v > rest then v else rest
  }

  ghost function Highest(versions: map<Version, VersionRow>): nat {
    MaxOf(versions.Keys)
  }

  function ActiveOf(versions: map<Version, VersionRow>): set<Version> {
    set v | v in versions && versions[v].state == Active
  }

  ghost function HighestActive(versions: map<Version, VersionRow>): Option<Version> {
    var active := ActiveOf(versions);
    if active == {} then None else Some(MaxOf(active))
  }

  // ----- rows -----

  function RowOfSealed(sealed: SealedVersion, meta: Meta): VersionRow {
    VersionRow(Active, Some(sealed.nonce), Some(sealed.ciphertext), Some(sealed.key.dekNonce),
               Some(sealed.key.wrappedDek), sealed.key.generation, meta)
  }

  function Erased(row: VersionRow): VersionRow {
    row.(state := Destroyed, nonce := None, ciphertext := None, dekNonce := None, wrappedDek := None)
  }

  /** `build_stored_version`: a missing column is corruption, a nonce of the wrong length a crypto error. */
  function BuildSealed(row: VersionRow): Result<SealedVersion, StoreError> {
    if row.state != Active then Err(NotFound)
    else if row.nonce.None? then Err(CorruptStore)
    else if |row.nonce.value| != 24 then Err(Crypto)
    else if row.ciphertext.None? || row.dekNonce.None? then Err(CorruptStore)
    else if |row.dekNonce.value| != 24 then Err(Crypto)
    else if row.wrappedDek.None? then Err(CorruptStore)
    else Ok(SealedVersion(row.ciphertext.value, row.nonce.value,
                          WrappedKey(row.wrappedDek.value, row.dekNonce.value, row.generation)))
  }

  // ----- write -----

  /** A version number reserved inside an open transaction, and the row it will be added to. */
  datatype Slot = Slot(path: SecretPath, row: SecretRow, version: Version)

  function SlotBinding(slot: Slot): Binding {
    Binding(slot.row.id, slot.version)
  }

  ghost predicate IdTaken(secrets: Secrets, id: Id) {
    exists p :: p in secrets && secrets[p].id == id
  }

  /** `highest + 1` is 32-bit arithmetic: past the last number it wraps to the invalid version 0. */
  ghost function BeginWrite(secrets: Secrets, path: SecretPath, newId: Id): Result<Slot, StoreError> {
    if path !in secrets && IdTaken(secrets, newId) then Err(Sqlite)
    else
      var row := if path in secrets then secrets[path] else SecretRow(newId, None, DEFAULT_MAX_VERSIONS, map[]);
      var next := (Highest(row.versions) + 1) % U32_LIMIT;
      if next == 0 then Err(InvalidVersion) else Ok(Slot(path, row, next))
  }

  predicate Doomed(row: VersionRow, v: Version, keep: Version, maxVersions: U32) {
    keep >= maxVersions && row.state != Destroyed && v != keep && v <= keep - maxVersions
  }

  function Pruned(versions: map<Version, VersionRow>, keep: Version, maxVersions: U32): map<Version, VersionRow> {
    map v | v in versions :: if Doomed(versions[v], v, keep, maxVersions) then Erased(versions[v]) else versions[v]
  }

  function CommitRow(row: SecretRow, version: Version, sealed: SealedVersion, meta: Meta): SecretRow {
    row.(current := Some(version),
         versions := Pruned(row.versions[version := RowOfSealed(sealed, meta)], version, row.maxVersions))
  }

  function Commit(secrets: Secrets, slot: Slot, sealed: SealedVersion, meta: Meta): Secrets {
    secrets[slot.path := CommitRow(slot.row, slot.version, sealed, meta)]
  }

  // ----- read, rollback, delete -----

  function Resolve(secrets: Secrets, path: SecretPath, selector: Selector): Result<(Id, Version), StoreError> {
    if path !in secrets then Err(NotFound)
    else
      var row := secrets[path];
      match selector
      case Exact(v) => Ok((row.id, v))
      case Current => if row.current.None? then Err(NotFound) else Ok((row.id, row.current.value))
  }

  function ReadVersion(secrets: Secrets, path: SecretPath, selector: Selector): Result<StoredVersion, StoreError> {
    match Resolve(secrets, path, selector)
    case Err(error) => Err(error)
    case Ok((id, v)) =>
      if v !in secrets[path].versions then Err(NotFound)
      else
        match BuildSealed(secrets[path].versions[v])
        case Err(error) => Err(error)
        case Ok(sealed) => Ok(StoredVersion(Binding(id, v), sealed, v))
  }

  function Rollback(secrets: Secrets, path: SecretPath, to: Version): Result<Secrets, StoreError> {
    if path !in secrets || to !in secrets[path].versions || secrets[path].versions[to].state != Active then Err(NotFound)
    else Ok(secrets[path := secrets[path].(current := Some(to))])
  }

  /** The UPDATE of a delete: which rows it touches, and what it makes of them. */
  function DeletedRow(row: VersionRow, mode: DeleteMode): Option<VersionRow> {
    match mode
    case Soft => if row.state == Active then Some(row.(state := Deleted)) else None
    case Destroy => if row.state != Destroyed then Some(Erased(row)) else None
  }

  ghost function DeleteVersion(secrets: Secrets, path: SecretPath, selector: Selector, mode: DeleteMode)
    : Result<(Secrets, Version), StoreError>
  {
    match Resolve(secrets, path, selector)
    case Err(error) => Err(error)
    case Ok((id, v)) =>
      var row := secrets[path];
      if v !in row.versions || DeletedRow(row.versions[v], mode).None? then Err(NotFound)
      else
        var versions := DeletedFrom(row, v, mode);
        Ok((secrets[path := row.(versions := versions, current := HighestActive(versions))], v))
  }

  // ----- what every operation keeps -----

  /** A destroyed version holds no payload; any other holds all of it. */
  predicate PayloadOk(row: VersionRow) {
    if row.state == Destroyed then row.nonce.None? && row.ciphertext.None? && row.dekNonce.None? && row.wrappedDek.None?
    else
      && row.nonce.Some? && |row.nonce.value| == 24
      && row.ciphertext.Some?
      && row.dekNonce.Some? && |row.dekNonce.value| == 24
      && row.wrappedDek.Some?
  }

  /** The current version is the absence of any active one, or names an active one. */
  predicate CurrentOk(row: SecretRow) {
    match row.current
    case None => ActiveOf(row.versions) == {}
    case Some(c) => c in row.versions && row.versions[c].state == Active
  }

  /** Version numbers run from 1 without a hole: none was ever skipped, dropped or reused. */
  ghost predicate NumberedFromOne(versions: map<Version, VersionRow>) {
    forall v: Version :: v in versions <==> v <= Highest(versions)
  }

  /** Whatever still holds ciphertext is the highest version or within the retention window. */
  ghost predicate RetentionOk(row: SecretRow) {
    forall v :: v in row.versions && row.versions[v].state != Destroyed ==>
      v == Highest(row.versions) || v + row.maxVersions > Highest(row.versions)
  }

  ghost predicate RowOk(row: SecretRow) {
    && (forall v :: v in row.versions ==> PayloadOk(row.versions[v]))
    && CurrentOk(row)
    && NumberedFromOne(row.versions)
    && RetentionOk(row)
  }

  ghost predicate StoreOk(secrets: Secrets) {
    && (forall p :: p in secrets ==> RowOk(secrets[p]))
    && (forall p, q :: p in secrets && q in secrets && secrets[p].id == secrets[q].id ==> p == q)
  }

  /** One version's history: its state only moves on, its payload only ever disappears. */
  predicate VersionEvolves(x: VersionRow, y: VersionRow) {
    && (x.state == Destroyed ==> y.state == Destroyed)
    && (x.state == Deleted ==> y.state != Active)
    && x.meta == y.meta
    && (y.state == Destroyed || (y.nonce == x.nonce && y.ciphertext == x.ciphertext))
    && (y.state == Destroyed && x.state != Destroyed ==> y.nonce.None? && y.ciphertext.None?)
    && (x.state == Destroyed ==> y.nonce == x.nonce && y.ciphertext == x.ciphertext)
  }

  ghost predicate RowEvolves(r: SecretRow, s: SecretRow) {
    && r.id == s.id && r.maxVersions == s.maxVersions
    && (forall v :: v in r.versions ==> v in s.versions && VersionEvolves(r.versions[v], s.versions[v]))
    && (forall v :: v in s.versions && v !in r.versions ==> v > Highest(r.versions))
  }

  ghost predicate Evolves(before: Secrets, after: Secrets) {
    forall p :: p in before ==> p in after && RowEvolves(before[p], after[p])
  }

  lemma RowEvolvesTransitive(a: SecretRow, b: SecretRow, c: SecretRow)
    requires RowEvolves(a, b) && RowEvolves(b, c)
    ensures RowEvolves(a, c)
  {
  }

  lemma EvolvesTransitive(a: Secrets, b: Secrets, c: Secrets)
    requires Evolves(a, b) && Evolves(b, c)
    ensures Evolves(a, c)
  {
    forall p | p in a ensures RowEvolves(a[p], c[p]) {
      RowEvolvesTransitive(a[p], b[p], c[p]);
    }
  }

  lemma EvolvesReflexive(a: Secrets)
    ensures Evolves(a, a)
  {
  }

  // ----- write -----

  lemma CommitRowHighest(row: SecretRow, version: Version, sealed: SealedVersion, meta: Meta)
    requires version == Highest(row.versions) + 1
    ensures var row' := CommitRow(row, version, sealed, meta);
      row'.versions.Keys == row.versions.Keys + {version} && Highest(row'.versions) == version
  {
  }

  lemma CommitRowEvolves(row: SecretRow, version: Version, sealed: SealedVersion, meta: Meta)
    requires forall v :: v in row.versions ==> PayloadOk(row.versions[v])
    requires version == Highest(row.versions) + 1
    ensures RowEvolves(row, CommitRow(row, version, sealed, meta))
  {
  }

  lemma CommitRowOk(row: SecretRow, version: Version, sealed: SealedVersion, meta: Meta)
    requires forall v :: v in row.versions ==> PayloadOk(row.versions[v])
    requires NumberedFromOne(row.versions) && version == Highest(row.versions) + 1
    ensures var row' := CommitRow(row, version, sealed, meta);
      RowOk(row') && RowEvolves(row, row') && Highest(row'.versions) == version
  {
    hide RowEvolves, Highest;
    CommitRowHighest(row, version, sealed, meta);
    CommitRowEvolves(row, version, sealed, meta);
  }

  /** Replacing or adding one sound row keeps the whole table sound. */
  lemma PutRow(secrets: Secrets, path: SecretPath, row: SecretRow)
    requires StoreOk(secrets) && RowOk(row)
    requires if path in secrets then RowEvolves(secrets[path], row) else !IdTaken(secrets, row.id)
    ensures StoreOk(secrets[path := row]) && Evolves(secrets, secrets[path := row])
  {
    hide RowOk;
    var after := secrets[path := row];
    forall p, q | p in after && q in after && after[p].id == after[q].id ensures p == q {
      assert path in secrets ==> after[path].id == secrets[path].id;
    }
    forall p | p in secrets ensures RowEvolves(secrets[p], after[p]) {
      UnchangedRow(secrets[p]);
    }
  }

  lemma UnchangedRow(row: SecretRow)
    ensures RowEvolves(row, row)
  {
  }

  lemma WriteKeepsStoreOk(secrets: Secrets, path: SecretPath, newId: Id, sealed: SealedVersion, meta: Meta)
    requires StoreOk(secrets) && BeginWrite(secrets, path, newId).Ok?
    ensures var slot := BeginWrite(secrets, path, newId).value;
      && slot.version == Highest(slot.row.versions) + 1
      && StoreOk(Commit(secrets, slot, sealed, meta))
      && Evolves(secrets, Commit(secrets, slot, sealed, meta))
  {
    hide RowEvolves, Pruned, PayloadOk, CurrentOk, RetentionOk;
    var slot := BeginWrite(secrets, path, newId).value;
    assert Highest(map[]) == 0;
    CommitRowOk(slot.row, slot.version, sealed, meta);
    PutRow(secrets, path, CommitRow(slot.row, slot.version, sealed, meta));
  }

  /** A write is refused only for a taken id or when the 32-bit version numbers are used up. */
  lemma WriteSucceedsExactly(secrets: Secrets, path: SecretPath, newId: Id)
    requires StoreOk(secrets)
    ensures BeginWrite(secrets, path, newId).Ok? <==>
      if path in secrets then Highest(secrets[path].versions) < U32_LIMIT - 1 else !IdTaken(secrets, newId)
  {
    hide MaxOf, RowOk;
    assert path !in secrets ==> Highest(map[]) == 0;
  }

  // ----- rollback and delete -----

  lemma RollbackKeepsStoreOk(secrets: Secrets, path: SecretPath, to: Version)
    requires StoreOk(secrets) && Rollback(secrets, path, to).Ok?
    ensures StoreOk(Rollback(secrets, path, to).value)
    ensures Evolves(secrets, Rollback(secrets, path, to).value)
  {
    hide RowOk, RowEvolves, Evolves;
    RollbackKeepsRowOk(secrets[path], to);
    PutRow(secrets, path, secrets[path].(current := Some(to)));
  }

  lemma RollbackKeepsRowOk(row: SecretRow, to: Version)
    requires RowOk(row) && to in row.versions && row.versions[to].state == Active
    ensures RowOk(row.(current := Some(to))) && RowEvolves(row, row.(current := Some(to)))
  {
  }

  function DeletedFrom(row: SecretRow, v: Version, mode: DeleteMode): map<Version, VersionRow>
    requires v in row.versions && DeletedRow(row.versions[v], mode).Some?
  {
    row.versions[v := DeletedRow(row.versions[v], mode).value]
  }

  lemma DeleteKeepsRowOk(row: SecretRow, v: Version, mode: DeleteMode)
    requires RowOk(row) && v in row.versions && DeletedRow(row.versions[v], mode).Some?
    ensures var row' := row.(versions := DeletedFrom(row, v, mode), current := HighestActive(DeletedFrom(row, v, mode)));
      RowOk(row') && RowEvolves(row, row') && Highest(row'.versions) == Highest(row.versions)
  {
    var versions := DeletedFrom(row, v, mode);
    assert versions.Keys == row.versions.Keys;
    DeleteEvolves(row, v, mode);
    hide RowEvolves, Highest, MaxOf;
  }

  lemma DeleteEvolves(row: SecretRow, v: Version, mode: DeleteMode)
    requires v in row.versions && DeletedRow(row.versions[v], mode).Some?
    ensures var row' := row.(versions := DeletedFrom(row, v, mode), current := HighestActive(DeletedFrom(row, v, mode)));
      RowEvolves(row, row')
  {
  }

  lemma DeleteKeepsStoreOk(secrets: Secrets, path: SecretPath, selector: Selector, mode: DeleteMode)
    requires StoreOk(secrets) && DeleteVersion(secrets, path, selector, mode).Ok?
    ensures StoreOk(DeleteVersion(secrets, path, selector, mode).value.0)
    ensures Evolves(secrets, DeleteVersion(secrets, path, selector, mode).value.0)
  {
    hide RowOk, RowEvolves, Evolves, HighestActive;
    var (after, v) := DeleteVersion(secrets, path, selector, mode).value;
    DeleteKeepsRowOk(secrets[path], v, mode);
    PutRow(secrets, path, after[path]);
  }

  /**
   * A delete is two statements, each committed on its own. Cut short between them, the current version is still
   * sound exactly when another version was deleted; reading it otherwise reports not-found, never corruption.
   */
  lemma DeleteCutShort(secrets: Secrets, path: SecretPath, v: Version, mode: DeleteMode)
    requires StoreOk(secrets) && path in secrets
    requires v in secrets[path].versions && DeletedRow(secrets[path].versions[v], mode).Some?
    ensures var row := secrets[path].(versions := DeletedFrom(secrets[path], v, mode));
      && ((CurrentOk(row) && NumberedFromOne(row.versions) && RetentionOk(row)) <==> secrets[path].current != Some(v))
      && (secrets[path].current == Some(v) ==> ReadVersion(secrets[path := row], path, Current) == Err(NotFound))
  {
    var (before, versions) := (secrets[path], DeletedFrom(secrets[path], v, mode));
    assert RowOk(before);
    assert versions.Keys == before.versions.Keys;
    hide MaxOf;
    assert forall w :: w in ActiveOf(versions) ==> w in ActiveOf(before.versions);
  }

  // ----- what the invariants are for -----

  /** The version a selector asks for, if the path has such a one. */
  predicate Names(secrets: Secrets, path: SecretPath, selector: Selector, v: Version) {
    && path in secrets
    && v in secrets[path].versions
    && match selector
       case Exact(u) => u == v
       case Current => secrets[path].current == Some(v)
  }

  /** An active row whose columns are these. */
  predicate Presents(row: VersionRow, sealed: SealedVersion) {
    && row.state == Active
    && row.nonce == Some(sealed.nonce) && row.ciphertext == Some(sealed.ciphertext)
    && row.dekNonce == Some(sealed.key.dekNonce) && row.wrappedDek == Some(sealed.key.wrappedDek)
    && row.generation == sealed.key.generation
  }

  /** A read gives back exactly the columns of the version asked for, bound to its own slot. */
  lemma ReadMeans(secrets: Secrets, path: SecretPath, selector: Selector, s: StoredVersion)
    ensures ReadVersion(secrets, path, selector) == Ok(s) <==>
      && Names(secrets, path, selector, s.version)
      && Presents(secrets[path].versions[s.version], s.sealed)
      && s.binding == Binding(secrets[path].id, s.version)
  {
  }

  predicate WrongLength(nonce: Option<Bytes>) {
    nonce.Some? && |nonce.value| != 24
  }

  /**
   * An active row that lacks a column is corruption, and one with a nonce of the wrong length a crypto error; with
   * both, whichever is met first: nonce, ciphertext, key nonce, wrapped key.
   */
  lemma CorruptionIsReported(secrets: Secrets, path: SecretPath, selector: Selector, v: Version)
    requires Names(secrets, path, selector, v)
    ensures var (r, row) := (ReadVersion(secrets, path, selector), secrets[path].versions[v]);
      && (row.state != Active <==> r == Err(NotFound))
      && (r == Err(StoreError.Crypto) <==>
            && row.state == Active
            && (WrongLength(row.nonce) || (row.nonce.Some? && row.ciphertext.Some? && WrongLength(row.dekNonce))))
      && (r == Err(CorruptStore) <==>
            && row.state == Active && !WrongLength(row.nonce)
            && (|| row.nonce.None? || row.ciphertext.None? || row.dekNonce.None?
                || (row.wrappedDek.None? && !WrongLength(row.dekNonce))))
  {
  }

  /** Reading the current version succeeds exactly when some version is active, and is never corrupt. */
  lemma CurrentIsReadable(secrets: Secrets, path: SecretPath)
    requires StoreOk(secrets) && path in secrets
    ensures var (r, row) := (ReadVersion(secrets, path, Current), secrets[path]);
      && (r.Ok? <==> exists v :: v in row.versions && row.versions[v].state == Active)
      && (r.Err? ==> r.error == NotFound)
      && (r.Ok? ==> row.current == Some(r.value.version) && r.value.binding == Binding(row.id, r.value.version))
  {
    var row := secrets[path];
    assert RowOk(row);
    if v :| v in row.versions && row.versions[v].state == Active {
      assert v in ActiveOf(row.versions);
    }
    if row.current.Some? {
      assert row.current.value in ActiveOf(row.versions);
    }
  }

  /** An exact version reads back exactly when it is active. */
  lemma ExactIsReadable(secrets: Secrets, path: SecretPath, v: Version)
    requires StoreOk(secrets)
    ensures var r := ReadVersion(secrets, path, Exact(v));
      && (r.Ok? <==> path in secrets && v in secrets[path].versions && secrets[path].versions[v].state == Active)
      && (r.Ok? ==> r.value.version == v)
      && (r.Err? ==> r.error == NotFound)
  {
  }

  /** A soft delete succeeds exactly on an active version, a destroy exactly on one not destroyed yet. */
  lemma DeleteSucceedsExactly(secrets: Secrets, path: SecretPath, selector: Selector, mode: DeleteMode)
    ensures var r := DeleteVersion(secrets, path, selector, mode);
      && (r.Ok? <==> exists v ::
            && Names(secrets, path, selector, v)
            && (mode == Soft ==> secrets[path].versions[v].state == Active)
            && (mode == Destroy ==> secrets[path].versions[v].state != Destroyed))
      && (r.Err? ==> r.error == NotFound)
      && (r.Ok? ==> Names(secrets, path, selector, r.value.1))
  {
    hide MaxOf;
    if path in secrets && (selector.Exact? || secrets[path].current.Some?) {
      var v := if selector.Exact? then selector.version else secrets[path].current.value;
      assert v in secrets[path].versions ==> Names(secrets, path, selector, v);
    }
  }

  // ----- what a caller sees after an operation -----

  ghost predicate OthersUntouched(before: Secrets, after: Secrets, path: SecretPath) {
    && after.Keys == before.Keys + {path}
    && forall p :: p in before && p != path ==> after[p] == before[p]
  }

  lemma CommitPrunesExactly(row: SecretRow, version: Version, sealed: SealedVersion, meta: Meta)
    requires forall v :: v in row.versions ==> v < version
    ensures var row' := CommitRow(row, version, sealed, meta);
      && version in row'.versions && BuildSealed(row'.versions[version]) == Ok(sealed)
      && row'.id == row.id && row'.current == Some(version) && row'.maxVersions == row.maxVersions
      && row'.versions.Keys == row.versions.Keys + {version}
      && row'.versions[version].meta == meta
      && forall v :: v in row.versions ==>
           && v in row'.versions
           && row'.versions[v] == if row.versions[v].state != Destroyed && v + row.maxVersions <= version
                                  then Erased(row.versions[v]) else row.versions[v]
  {
    hide Erased;
  }

  lemma PutIsOnlyThere(secrets: Secrets, path: SecretPath, row: SecretRow)
    ensures OthersUntouched(secrets, secrets[path := row], path)
  {
  }

  /** A write is read back as current, destroys exactly what leaves the retention window, and touches no other secret. */
  lemma WriteIsReadBack(secrets: Secrets, path: SecretPath, newId: Id, sealed: SealedVersion, meta: Meta)
    requires StoreOk(secrets) && BeginWrite(secrets, path, newId).Ok?
    ensures var slot := BeginWrite(secrets, path, newId).value;
      var after := Commit(secrets, slot, sealed, meta);
      && (path in secrets ==> slot.row == secrets[path]) && slot.path == path
      && (path !in secrets ==> slot.version == 1 && slot.row == SecretRow(newId, None, 10, map[]))
      && after[path].maxVersions == slot.row.maxVersions && after[path].id == slot.row.id
      && after[path].versions.Keys == slot.row.versions.Keys + {slot.version}
      && after[path].versions[slot.version].meta == meta
      && ReadVersion(after, path, Current) == Ok(StoredVersion(SlotBinding(slot), sealed, slot.version))
      && OthersUntouched(secrets, after, path)
      && (forall v :: v in slot.row.versions ==>
            after[path].versions[v] ==
              if slot.row.versions[v].state != Destroyed && v + slot.row.maxVersions <= slot.version
              then Erased(slot.row.versions[v]) else slot.row.versions[v])
  {
    var slot := BeginWrite(secrets, path, newId).value;
    WriteKeepsStoreOk(secrets, path, newId, sealed, meta);
    CommitPrunesExactly(slot.row, slot.version, sealed, meta);
    PutIsOnlyThere(secrets, path, CommitRow(slot.row, slot.version, sealed, meta));
    hide MaxOf, Erased, CommitRow, BuildSealed, StoreOk, OthersUntouched, Evolves;
  }

  /** A rollback is read back as current; every version of every secret stays as it was. */
  lemma RollbackIsReadBack(secrets: Secrets, path: SecretPath, to: Version)
    requires StoreOk(secrets)
    ensures Rollback(secrets, path, to).Ok? <==> ReadVersion(secrets, path, Exact(to)).Ok?
    ensures Rollback(secrets, path, to).Ok? ==>
      var after := Rollback(secrets, path, to).value;
      && ReadVersion(after, path, Current) == ReadVersion(secrets, path, Exact(to))
      && after[path].versions == secrets[path].versions && OthersUntouched(secrets, after, path)
  {
    if path in secrets {
      assert RowOk(secrets[path]);
    }
  }

  lemma HighestActiveMeans(versions: map<Version, VersionRow>)
    ensures var top := HighestActive(versions);
      && (forall w :: w in versions && versions[w].state == Active ==> top.Some? && w <= top.value)
      && (top.Some? ==> top.value in versions && versions[top.value].state == Active)
  {
    forall w | w in versions && versions[w].state == Active ensures w in ActiveOf(versions) {
    }
  }

  /** Destroyed: nothing of the payload is left, and nothing else is touched. */
  predicate Emptied(before: VersionRow, after: VersionRow) {
    && after.state == Destroyed
    && after.nonce.None? && after.ciphertext.None? && after.dekNonce.None? && after.wrappedDek.None?
    && after.generation == before.generation && after.meta == before.meta
  }

  lemma DeletedReads(row: SecretRow, path: SecretPath, v: Version, mode: DeleteMode, w: Version, current: Option<Version>)
    requires RowOk(row) && v in row.versions && DeletedRow(row.versions[v], mode).Some?
    ensures var row' := row.(versions := DeletedFrom(row, v, mode), current := current);
      && (mode == Soft ==> row'.versions[v] == row.versions[v].(state := Deleted))
      && (mode == Destroy ==> Emptied(row.versions[v], row'.versions[v]))
      && ReadVersion(map[path := row'], path, Exact(w))
         == if w == v then Err(NotFound) else ReadVersion(map[path := row], path, Exact(w))
  {
    assert PayloadOk(row.versions[v]);
  }

  lemma ReadsOnlyItsRow(secrets: Secrets, path: SecretPath, selector: Selector)
    requires path in secrets
    ensures ReadVersion(secrets, path, selector) == ReadVersion(map[path := secrets[path]], path, selector)
  {
  }

  /**
   * A deleted version is not found again, its payload gone only if it was destroyed; every other version reads as
   * before, and current becomes the highest version still active, whether or not the deleted one was current.
   */
  lemma DeleteHidesExactlyOne(secrets: Secrets, path: SecretPath, selector: Selector, mode: DeleteMode)
    requires StoreOk(secrets) && DeleteVersion(secrets, path, selector, mode).Ok?
    ensures var (after, v) := DeleteVersion(secrets, path, selector, mode).value;
      && Names(secrets, path, selector, v)
      && ReadVersion(after, path, Exact(v)) == Err(NotFound)
      && after[path].versions.Keys == secrets[path].versions.Keys
      && (mode == Soft ==> after[path].versions[v] == secrets[path].versions[v].(state := Deleted))
      && (mode == Destroy ==> Emptied(secrets[path].versions[v], after[path].versions[v]))
      && (forall w :: w in secrets[path].versions && w != v ==> after[path].versions[w] == secrets[path].versions[w])
      && (forall w :: w != v ==> ReadVersion(after, path, Exact(w)) == ReadVersion(secrets, path, Exact(w)))
      && (forall w :: w in after[path].versions && after[path].versions[w].state == Active ==>
            after[path].current.Some? && w <= after[path].current.value)
      && (after[path].current.Some? ==>
            var top := after[path].current.value;
            top in after[path].versions && after[path].versions[top].state == Active)
      && OthersUntouched(secrets, after, path)
  {
    DeleteSucceedsExactly(secrets, path, selector, mode);
    hide MaxOf, ReadVersion, RowOk, Emptied, HighestActive;
    var (after, v) := DeleteVersion(secrets, path, selector, mode).value;
    HighestActiveMeans(after[path].versions);
    DeletedReads(secrets[path], path, v, mode, v, after[path].current);
    forall w: Version
      ensures ReadVersion(after, path, Exact(w))
           == if w == v then Err(NotFound) else ReadVersion(secrets, path, Exact(w))
    {
      DeletedReads(secrets[path], path, v, mode, w, after[path].current);
      ReadsOnlyItsRow(secrets, path, Exact(w));
      ReadsOnlyItsRow(after, path, Exact(w));
    }
    PutIsOnlyThere(secrets, path, after[path]);
  }

  function Retained(versions: map<Version, VersionRow>): set<Version> {
    set v | v in versions && versions[v].state != Destroyed
  }

  lemma {:induction false} RangeSize(s: set<Version>, low: nat, high: nat)
    requires low <= high && forall v :: v in s ==> low < v <= high
    ensures |s| <= high - low
    decreases high - low
  {
    if low == high {
      assert s == {};
    } else {
      var rest := s - {high};
      RangeSize(rest, low, high - 1);
      assert s <= rest + {high};
      SubsetSize(s, rest + {high});
    }
  }

  lemma {:induction false} SubsetSize<T>(a: set<T>, b: set<T>)
    requires a <= b
    ensures |a| <= |b|
    decreases a
  {
    if a != {} {
      var x :| x in a;
      SubsetSize(a - {x}, b - {x});
    }
  }

  /** At most max(1, max_versions) versions of a secret keep their ciphertext. */
  lemma RetentionBound(row: SecretRow)
    requires RowOk(row)
    ensures |set v | v in row.versions && row.versions[v].state != Destroyed|
      <= if row.maxVersions == 0 then 1 else row.maxVersions
  {
    var (kept, top) := (Retained(row.versions), Highest(row.versions));
    assert kept == set v | v in row.versions && row.versions[v].state != Destroyed;
    var window := if row.maxVersions == 0 then 1 else row.maxVersions;
    RangeSize(kept, if top > window then top - window else 0, top);
  }
}
