/** The store as an object over its normalised tables, each method proved against its function on joined rows. */
module Stores {
  import opened ByteStrings
  import opened Paths
  import opened Envelope
  import opened SecretTables
  import opened Rotation
  import opened TagTables

  /** A row of `secrets`. */
  datatype Head = Head(id: Id, current: Option<Version>, maxVersions: U32)

  type Heads = map<SecretPath, Head>

  /** `secret_versions`, by its primary key. */
  type VersionTable = map<(Id, Version), VersionRow>

  function VersionsOf(t: VersionTable, id: Id): map<Version, VersionRow> {
    map k | k in t && k.0 == id :: k.1 := t[k]
  }

  function JoinRow(h: Head, t: VersionTable): SecretRow {
    SecretRow(h.id, h.current, h.maxVersions, VersionsOf(t, h.id))
  }

  /** The two tables joined on the secret's id. */
  function Join(heads: Heads, t: VersionTable): Secrets {
    map p | p in heads :: JoinRow(heads[p], t)
  }

  ghost predicate HasHead(heads: Heads, id: Id) {
    exists p :: p in heads && heads[p].id == id
  }

  /** The id is the primary key of `secrets`, and every version refers to one. */
  ghost predicate TablesOk(heads: Heads, t: VersionTable) {
    && (forall p, q :: p in heads && q in heads && heads[p].id == heads[q].id ==> p == q)
    && (forall k :: k in t ==> HasHead(heads, k.0))
  }

  ghost predicate SameOutside(t: VersionTable, t': VersionTable, id: Id) {
    forall k: (Id, Version) :: k.0 != id ==> (k in t <==> k in t') && (k in t ==> t'[k] == t[k])
  }

  lemma OtherVersions(t: VersionTable, t': VersionTable, id: Id, other: Id)
    requires SameOutside(t, t', id) && other != id
    ensures VersionsOf(t', other) == VersionsOf(t, other)
  {
  }

  lemma HeadsAfter(heads: Heads, t: VersionTable, path: SecretPath, h: Head, t': VersionTable)
    requires TablesOk(heads, t) && SameOutside(t, t', h.id)
    requires if path in heads then heads[path].id == h.id else !HasHead(heads, h.id)
    ensures TablesOk(heads[path := h], t')
  {
    var heads' := heads[path := h];
    forall k | k in t' ensures HasHead(heads', k.0) {
      if k.0 == h.id {
        assert heads'[path].id == k.0;
      } else {
        var p :| p in heads && heads[p].id == k.0;
        assert heads'[p].id == k.0;
      }
    }
    assert path !in heads ==> forall p :: p in heads ==> heads[p].id != h.id;
  }

  lemma OtherRows(heads: Heads, t: VersionTable, path: SecretPath, h: Head, t': VersionTable)
    requires TablesOk(heads, t) && SameOutside(t, t', h.id)
    requires if path in heads then heads[path].id == h.id else !HasHead(heads, h.id)
    ensures forall p :: p in heads && p != path ==> JoinRow(heads[p], t') == JoinRow(heads[p], t)
  {
    hide ValidPath, VersionsOf;
    forall p | p in heads && p != path ensures JoinRow(heads[p], t') == JoinRow(heads[p], t) {
      assert heads[p].id != h.id;
      OtherVersions(t, t', h.id, heads[p].id);
    }
  }

  lemma JoinPointwise(heads: Heads, t: VersionTable, path: SecretPath, h: Head, t': VersionTable)
    requires forall p :: p in heads && p != path ==> JoinRow(heads[p], t') == JoinRow(heads[p], t)
    ensures Join(heads[path := h], t') == Join(heads, t)[path := JoinRow(h, t')]
  {
  }

  /** Statements that touch one secret's rows change that one row of the join. */
  lemma JoinAfter(heads: Heads, t: VersionTable, path: SecretPath, h: Head, t': VersionTable)
    requires TablesOk(heads, t) && SameOutside(t, t', h.id)
    requires if path in heads then heads[path].id == h.id else !HasHead(heads, h.id)
    ensures TablesOk(heads[path := h], t')
    ensures Join(heads[path := h], t') == Join(heads, t)[path := JoinRow(h, t')]
  {
    HeadsAfter(heads, t, path, h, t');
    OtherRows(heads, t, path, h, t');
    JoinPointwise(heads, t, path, h, t');
  }

  lemma NewSecretHasNoVersions(heads: Heads, t: VersionTable, id: Id)
    requires TablesOk(heads, t) && !HasHead(heads, id)
    ensures VersionsOf(t, id) == map[]
  {
  }

  lemma TakenIds(heads: Heads, t: VersionTable, id: Id)
    ensures HasHead(heads, id) <==> IdTaken(Join(heads, t), id)
  {
    if HasHead(heads, id) {
      var p :| p in heads && heads[p].id == id;
      assert Join(heads, t)[p].id == id;
    }
    if IdTaken(Join(heads, t), id) {
      var p :| p in Join(heads, t) && Join(heads, t)[p].id == id;
      assert heads[p].id == id;
    }
  }

  /** The UPDATE that prunes, on the table. */
  function PrunedTable(t: VersionTable, id: Id, keep: Version, maxVersions: U32): VersionTable {
    map k | k in t :: if k.0 == id && Doomed(t[k], k.1, keep, maxVersions) then Erased(t[k]) else t[k]
  }

  lemma ReplacedVersion(t: VersionTable, id: Id, version: Version, row: VersionRow)
    ensures var t' := t[(id, version) := row];
      SameOutside(t, t', id) && VersionsOf(t', id) == VersionsOf(t, id)[version := row]
  {
  }

  lemma PrunedVersions(t: VersionTable, id: Id, keep: Version, maxVersions: U32)
    ensures var t' := PrunedTable(t, id, keep, maxVersions);
      SameOutside(t, t', id) && VersionsOf(t', id) == Pruned(VersionsOf(t, id), keep, maxVersions)
  {
  }

  lemma CommittedVersions(t: VersionTable, id: Id, version: Version, row: VersionRow, maxVersions: U32)
    ensures var t' := PrunedTable(t[(id, version) := row], id, version, maxVersions);
      && SameOutside(t, t', id)
      && VersionsOf(t', id) == Pruned(VersionsOf(t, id)[version := row], version, maxVersions)
  {
    hide PrunedTable, Pruned, VersionsOf;
    ReplacedVersion(t, id, version, row);
    PrunedVersions(t[(id, version) := row], id, version, maxVersions);
  }

  ghost function PathOf(heads: Heads, id: Id): (p: SecretPath)
    requires HasHead(heads, id)
    ensures p in heads && heads[p].id == id
  {
    var p :| p in heads && heads[p].id == id;
    p
  }

  function Pending(t: VersionTable): set<(Id, Version)> {
    set k | k in t && t[k].state != Destroyed
  }

  lemma RotatedJoinRow(r: Rotor, p: SecretPath, h: Head, t: VersionTable, t': VersionTable)
    requires t'.Keys == t.Keys
    requires forall v: Version :: (h.id, v) in t ==> Rotated(r, p, h.id, v, t[(h.id, v)]) == Ok(t'[(h.id, v)])
    ensures CanRotateRow(r, p, JoinRow(h, t)) && RotateRow(r, p, JoinRow(h, t)) == JoinRow(h, t')
  {
  }

  /** Every pending row rewrapped, every other as it was: the join is the rotated store. */
  lemma RotatedJoin(r: Rotor, heads: Heads, t: VersionTable, t': VersionTable)
    requires TablesOk(heads, t) && t'.Keys == t.Keys
    requires forall k :: k in t ==> Rotated(r, PathOf(heads, k.0), k.0, k.1, t[k]) == Ok(t'[k])
    ensures TablesOk(heads, t') && RotateAll(r, Join(heads, t)) == Some(Join(heads, t'))
  {
    hide Rotated, CanRotateRow, RotateRow, JoinRow;
    forall p | p in heads
      ensures CanRotateRow(r, p, JoinRow(heads[p], t))
      ensures RotateRow(r, p, JoinRow(heads[p], t)) == JoinRow(heads[p], t')
    {
      assert HasHead(heads, heads[p].id);
      assert PathOf(heads, heads[p].id) == p;
      RotatedJoinRow(r, p, heads[p], t, t');
    }
    hide TablesOk;
    assert RotateAll(r, Join(heads, t)).value == Join(heads, t');
  }

  lemma UnrotatableRow(r: Rotor, heads: Heads, t: VersionTable, p: SecretPath, k: (Id, Version))
    requires p in heads && heads[p].id == k.0 && k in t
    requires Rotated(r, p, k.0, k.1, t[k]).Err?
    ensures RotateAll(r, Join(heads, t)).None?
  {
    hide Rotated;
    var row := Join(heads, t)[p];
    assert row.versions[k.1] == t[k];
    assert !CanRotateRow(r, p, row);
  }

  /** The rotation loop part-way: rows to do are untouched, all others are what rotation makes of them. */
  ghost predicate RotatedSoFar(r: Rotor, heads: Heads, t: VersionTable, work: VersionTable, todo: set<(Id, Version)>)
    requires TablesOk(heads, t)
  {
    && todo <= Pending(t) && work.Keys == t.Keys
    && (forall k :: k in todo ==> work[k] == t[k])
    && (forall k :: k in t && k !in todo ==> Rotated(r, PathOf(heads, k.0), k.0, k.1, t[k]) == Ok(work[k]))
  }

  lemma RotationStarts(r: Rotor, heads: Heads, t: VersionTable)
    requires TablesOk(heads, t)
    ensures RotatedSoFar(r, heads, t, t, Pending(t))
  {
  }

  function RewrapFor(r: Rotor, p: SecretPath, k: (Id, Version), row: VersionRow): Result<VersionRow, StoreError> {
    RewrapRow(row, r.oldMaster, r.newMaster, r.generation, Binding(k.0, k.1), r.nonces(p, k.1))
  }

  lemma RotationSteps(
    r: Rotor, heads: Heads, t: VersionTable, work: VersionTable, todo: set<(Id, Version)>, k: (Id, Version), p: SecretPath)
    requires TablesOk(heads, t) && RotatedSoFar(r, heads, t, work, todo)
    requires k in todo && p in heads && heads[p].id == k.0
    ensures match RewrapFor(r, p, k, work[k])
      case Err(_) => RotateAll(r, Join(heads, t)).None?
      case Ok(row) => RotatedSoFar(r, heads, t, work[k := row], todo - {k})
  {
    hide RewrapRow, RotateAll;
    assert p == PathOf(heads, k.0);
    assert RewrapFor(r, p, k, work[k]) == Rotated(r, p, k.0, k.1, t[k]);
    if RewrapFor(r, p, k, work[k]).Err? {
      UnrotatableRow(r, heads, t, p, k);
    }
  }

  lemma RotationEnds(r: Rotor, heads: Heads, t: VersionTable, work: VersionTable)
    requires TablesOk(heads, t) && RotatedSoFar(r, heads, t, work, {})
    ensures TablesOk(heads, work) && RotateAll(r, Join(heads, t)) == Some(Join(heads, work))
  {
    hide Rotated;
    RotatedJoin(r, heads, t, work);
  }

  // ----- listing -----

  datatype ListFilter = ListFilter(prefix: Option<string>, tags: seq<Tag>, includeEmpty: bool)

  datatype Summary = Summary(path: SecretPath, current: Option<Version>, versionCount: nat, tags: set<Tag>)

  predicate UnderPrefix(path: string, prefix: Option<string>) {
    prefix.None? || ListedUnder(path, prefix.value)
  }

  /** The WHERE clause a filter is turned into. */
  ghost predicate Selected(secrets: Secrets, tags: Tables, filter: ListFilter, path: SecretPath) {
    && path in secrets
    && UnderPrefix(path, filter.prefix)
    && (filter.includeEmpty || secrets[path].current.Some?)
    && forall tag :: tag in filter.tags ==> tag in TagsOn(tags, secrets[path].id)
  }

  /**
   * A listing shows exactly the secrets at or below the prefix, segment by segment and whatever slashes follow it,
   * that carry every requested tag and, unless empty ones are asked for, still have a version to read.
   */
  lemma ListsLiveSecrets(secrets: Secrets, tags: Tables, filter: ListFilter, path: SecretPath)
    requires StoreOk(secrets)
    ensures Selected(secrets, tags, filter, path) <==>
      && path in secrets
      && (filter.prefix.None? || filter.prefix.value == "" || Split(TrimSlashes(filter.prefix.value)) <= Split(path))
      && (filter.includeEmpty || exists v :: v in secrets[path].versions && secrets[path].versions[v].state == Active)
      && forall tag :: tag in filter.tags ==> tag in TagsOn(tags, secrets[path].id)
  {
    hide TagsOn, Split, ValidPath, TrimSlashes;
    if filter.prefix.Some? {
      PrefixOfPieces(TrimSlashes(filter.prefix.value), path);
      ListedMeans(path, filter.prefix.value);
    }
    hide ListedUnder;
    if path in secrets {
      LiveMeansCurrent(secrets, path);
    }
  }

  lemma ListedMeans(path: string, prefix: string)
    ensures ListedUnder(path, prefix) <==>
      prefix == "" || path == TrimSlashes(prefix) || (TrimSlashes(prefix) + "/") <= path
  {
    hide TrimSlashes;
  }

  lemma LiveMeansCurrent(secrets: Secrets, path: SecretPath)
    requires StoreOk(secrets) && path in secrets
    ensures secrets[path].current.Some? <==>
      exists v :: v in secrets[path].versions && secrets[path].versions[v].state == Active
  {
    var row := secrets[path];
    assert RowOk(row);
    assert forall v :: v in row.versions && row.versions[v].state == Active ==> v in ActiveOf(row.versions);
  }

  function SummaryOf(path: SecretPath, row: SecretRow, tags: Tables): Summary {
    Summary(path, row.current, CountRetained(row), TagsOn(tags, row.id))
  }

  /** Strictly ascending by path, so that no path comes twice. */
  predicate InOrder(r: seq<Summary>) {
    forall i, j :: 0 <= i < j < |r| ==> Precedes(r[i].path, r[j].path)
  }

  predicate Shows(r: seq<Summary>, path: SecretPath) {
    exists i :: 0 <= i < |r| && r[i].path == path
  }

  /** What is shown of a secret: its current version, how many versions keep a payload, and its tags. */
  predicate Accurate(r: seq<Summary>, secrets: Secrets, tags: Tables) {
    forall i :: 0 <= i < |r| ==>
      && r[i].path in secrets
      && r[i].current == secrets[r[i].path].current
      && r[i].versionCount == CountRetained(secrets[r[i].path])
      && r[i].tags == TagsOn(tags, secrets[r[i].path].id)
  }

  function CountRetained(row: SecretRow): nat {
    |set v | v in row.versions && row.versions[v].state != Destroyed|
  }

  /** The count shown is the number of versions not destroyed, and at most the retention limit or 1. */
  lemma CountMeans(row: SecretRow, kept: set<Version>)
    requires forall v :: v in kept <==> v in row.versions && row.versions[v].state != Destroyed
    ensures CountRetained(row) == |kept|
    ensures RowOk(row) ==> CountRetained(row) <= (if row.maxVersions == 0 then 1 else row.maxVersions)
  {
    assert kept == set v | v in row.versions && row.versions[v].state != Destroyed;
    if RowOk(row) {
      RetentionBound(row);
    }
  }

  lemma NothingShown()
    ensures forall p :: !Shows([], p)
  {
  }

  lemma ShowsOneMore(r: seq<Summary>, s: Summary)
    ensures forall p :: Shows(r + [s], p) <==> Shows(r, p) || p == s.path
  {
    forall p ensures Shows(r + [s], p) <==> Shows(r, p) || p == s.path {
      assert (r + [s])[|r|] == s;
      if Shows(r, p) {
        var i :| 0 <= i < |r| && r[i].path == p;
        assert (r + [s])[i].path == p;
      }
    }
  }

  class Store {
    var heads: Heads
    var versions: VersionTable
    var tags: Tables
    var sealedMaster: Option<SealedMaster>

    constructor ()
      ensures Valid() && Joined() == map[] && tags == NO_TAGS && sealedMaster == None
    {
      heads, versions, tags, sealedMaster := map[], map[], NO_TAGS, None;
    }

    ghost predicate Valid()
      reads this
    {
      TablesOk(heads, versions)
    }

    function Joined(): Secrets
      reads this
    {
      Join(heads, versions)
    }

    // ----- aggregates -----

    /** SELECT MAX(version), among the active versions only if asked. */
    method MaxVersion(id: Id, activeOnly: bool) returns (m: nat)
      ensures m == if activeOnly then MaxOf(ActiveOf(VersionsOf(versions, id))) else Highest(VersionsOf(versions, id))
    {
      ghost var wanted := if activeOnly then ActiveOf(VersionsOf(versions, id)) else VersionsOf(versions, id).Keys;
      m := 0;
      var todo := versions.Keys;
      while todo != {}
        invariant todo <= versions.Keys
        invariant m == 0 || m in wanted
        invariant forall v :: v in wanted && v > m ==> (id, v) in todo
      {
        var k: (Id, Version) :| k in todo;
        if k.0 == id && (activeOnly ==> versions[k].state == Active) && k.1 > m {
          m := k.1;
        }
        todo := todo - {k};
      }
    }

    // ----- writing -----

    method BeginWrite(path: SecretPath, newId: Id) returns (r: Result<Slot, StoreError>)
      requires Valid()
      ensures r == SecretTables.BeginWrite(Joined(), path, newId)
    {
      hide MaxOf, VersionsOf, TablesOk, ValidPath;
      TakenIds(heads, versions, newId);
      var head := Head(newId, None, DEFAULT_MAX_VERSIONS);
      if path in heads {
        head := heads[path];
      } else if exists p :: p in heads && heads[p].id == newId {
        return Err(Sqlite);
      } else {
        NewSecretHasNoVersions(heads, versions, newId);
      }
      var highest := MaxVersion(head.id, false);
      var next := (highest + 1) % U32_LIMIT;
      if next == 0 {
        return Err(InvalidVersion);
      }
      return Ok(Slot(path, JoinRow(head, versions), next));
    }

    method Prune(id: Id, keep: Version, maxVersions: U32)
      modifies this`versions
      ensures versions == PrunedTable(old(versions), id, keep, maxVersions)
    {
      if keep < maxVersions {
        assert versions == PrunedTable(versions, id, keep, maxVersions);
        return;
      }
      versions := map k | k in versions ::
        if k.0 == id && versions[k].state != Destroyed && k.1 != keep && k.1 <= keep - maxVersions
        then Erased(versions[k]) else versions[k];
    }

    /** Publishes a slot reserved in the transaction this closes. */
    method Commit(slot: Slot, sealed: SealedVersion, meta: Meta) returns (version: Version)
      requires Valid() && SecretTables.BeginWrite(Joined(), slot.path, slot.row.id) == Ok(slot)
      modifies this`heads, this`versions
      ensures Valid() && version == slot.version
      ensures Joined() == SecretTables.Commit(old(Joined()), slot, sealed, meta)
    {
      hide ValidPath, VersionsOf, PrunedTable, Pruned, SameOutside, TablesOk, RowOfSealed, MaxOf;
      ghost var (heads0, versions0) := (heads, versions);
      version := slot.version;
      var (id, row) := (slot.row.id, RowOfSealed(sealed, meta));
      TakenIds(heads, versions, id);
      if slot.path !in heads {
        NewSecretHasNoVersions(heads, versions, id);
      }
      versions := versions[(id, version) := row];
      heads := heads[slot.path := Head(id, Some(version), slot.row.maxVersions)];
      Prune(id, version, slot.row.maxVersions);
      CommittedVersions(versions0, id, version, row, slot.row.maxVersions);
      JoinAfter(heads0, versions0, slot.path, heads[slot.path], versions);
    }

    // ----- reading -----

    method ReadVersion(path: SecretPath, selector: Selector) returns (r: Result<StoredVersion, StoreError>)
      ensures r == SecretTables.ReadVersion(Joined(), path, selector)
    {
      hide BuildSealed;
      var found := Resolve(Joined(), path, selector);
      if found.Err? {
        return Err(found.error);
      }
      var (id, v) := found.value;
      if (id, v) !in versions {
        return Err(NotFound);
      }
      var sealed := BuildSealed(versions[(id, v)]);
      if sealed.Err? {
        return Err(sealed.error);
      }
      return Ok(StoredVersion(Binding(id, v), sealed.value, v));
    }

    // ----- rollback and delete -----

    method Rollback(path: SecretPath, to: Version) returns (r: Result<(), StoreError>)
      requires Valid()
      modifies this`heads
      ensures Valid()
      ensures match SecretTables.Rollback(old(Joined()), path, to)
        case Ok(after) => r == Ok(()) && Joined() == after
        case Err(error) => r == Err(error) && heads == old(heads)
    {
      if path !in heads {
        return Err(NotFound);
      }
      var id := heads[path].id;
      if (id, to) !in versions || versions[(id, to)].state != Active {
        return Err(NotFound);
      }
      ghost var before := heads;
      heads := heads[path := heads[path].(current := Some(to))];
      JoinAfter(before, versions, path, heads[path], versions);
      return Ok(());
    }

    method DeleteVersion(path: SecretPath, selector: Selector, mode: DeleteMode) returns (r: Result<Version, StoreError>)
      requires Valid()
      modifies this`heads, this`versions
      ensures Valid()
      ensures match SecretTables.DeleteVersion(old(Joined()), path, selector, mode)
        case Ok((after, v)) => r == Ok(v) && Joined() == after
        case Err(error) => r == Err(error) && heads == old(heads) && versions == old(versions)
    {
      hide HighestActive, DeletedRow, ActiveOf, ValidPath, TablesOk, SameOutside;
      ghost var (heads0, versions0) := (heads, versions);
      var found := Resolve(Joined(), path, selector);
      if found.Err? {
        return Err(found.error);
      }
      var (id, v) := found.value;
      if (id, v) !in versions {
        return Err(NotFound);
      }
      var after := DeletedRow(versions[(id, v)], mode);
      if after.None? {
        return Err(NotFound);
      }
      versions := versions[(id, v) := after.value];
      ReplacedVersion(versions0, id, v, after.value);
      assert VersionsOf(versions, id) == DeletedFrom(Join(heads0, versions0)[path], v, mode);
      var highest := MaxVersion(id, true);
      var current := CurrentOf(highest, VersionsOf(versions, id));
      heads := heads[path := heads[path].(current := current)];
      JoinAfter(heads0, versions0, path, heads[path], versions);
      return Ok(v);
    }

    // ----- tags -----

    method NextTagId() returns (n: nat)
      ensures n == MaxRowId(tags.tags.Keys) + 1
    {
      var highest := 0;
      var todo := tags.tags.Keys;
      while todo != {}
        invariant todo <= tags.tags.Keys
        invariant highest == 0 || highest in tags.tags.Keys
        invariant forall i :: i in tags.tags && i > highest ==> i in todo
      {
        var i :| i in todo;
        if i > highest {
          highest := i;
        }
        todo := todo - {i};
      }
      return highest + 1;
    }

    method AddTags(path: SecretPath, added: seq<Tag>) returns (r: Result<(), StoreError>)
      modifies this`tags
      ensures if path !in heads then r == Err(NotFound) && tags == old(tags)
        else r == Ok(()) && tags == TagTables.AddTags(old(tags), heads[path].id, added)
    {
      if path !in heads {
        return Err(NotFound);
      }
      var id := heads[path].id;
      assert added[0..] == added;
      for i := 0 to |added|
        invariant TagTables.AddTags(tags, id, added[i..]) == TagTables.AddTags(old(tags), id, added)
      {
        ghost var before := tags;
        assert added[i..][1..] == added[i + 1..];
        if added[i] !in tags.tags.Values {
          var row := NextTagId();
          tags := tags.(tags := tags.tags[row := added[i]]);
        }
        tags := LinkTag(tags, id, added[i]);
        assert tags == LinkTag(InsertTag(before, added[i]), id, added[i]);
      }
      return Ok(());
    }

    method RemoveTags(path: SecretPath, selectors: seq<TagSelector>) returns (r: Result<(), StoreError>)
      modifies this`tags
      ensures if path !in heads then r == Err(NotFound) && tags == old(tags)
        else r == Ok(()) && tags == TagTables.RemoveTags(old(tags), heads[path].id, selectors)
    {
      hide Unlink, Sweep;
      if path !in heads {
        return Err(NotFound);
      }
      var id := heads[path].id;
      assert selectors[0..] == selectors;
      for i := 0 to |selectors|
        invariant UnlinkAll(tags, id, selectors[i..]) == UnlinkAll(old(tags), id, selectors)
      {
        assert selectors[i..][1..] == selectors[i + 1..];
        tags := Unlink(tags, id, selectors[i]);
      }
      tags := Sweep(tags);
      return Ok(());
    }

    // ----- listing -----

    /** The secrets a filter selects in the order of their paths, each with its current version, retained count and tags. */
    method List(filter: ListFilter) returns (r: seq<Summary>)
      ensures forall p :: Shows(r, p) <==> Selected(Joined(), tags, filter, p)
      ensures InOrder(r) && Accurate(r, Joined(), tags)
    {
      hide TagsOn, CountRetained, ValidPath, Precedes, Shows;
      r := [];
      assert forall p :: !Shows(r, p) by {
        NothingShown();
      }
      var todo := heads.Keys;
      while todo != {}
        invariant todo <= heads.Keys && InOrder(r) && Accurate(r, Joined(), tags)
        invariant forall p :: Shows(r, p) <==> p !in todo && Selected(Joined(), tags, filter, p)
        invariant forall i, q :: 0 <= i < |r| && q in todo ==> Precedes(r[i].path, q)
      {
        var p := LeastPath(todo);
        var head := heads[p];
        var tagged := HasEveryTag(head.id, filter.tags);
        if UnderPrefix(p, filter.prefix) && (filter.includeEmpty || head.current.Some?) && tagged {
          var s := SummaryOf(p, JoinRow(head, versions), tags);
          ShowsOneMore(r, s);
          r := r + [s];
        }
        todo := todo - {p};
      }
    }

    method HasEveryTag(id: Id, wanted: seq<Tag>) returns (b: bool)
      ensures b <==> forall tag :: tag in wanted ==> tag in TagsOn(tags, id)
    {
      hide TagsOn, HasTagRow;
      for i := 0 to |wanted|
        invariant forall j :: 0 <= j < i ==> wanted[j] in TagsOn(tags, id)
      {
        HasTagRowMeans(tags, id, wanted[i]);
        if !HasTagRow(tags, id, wanted[i]) {
          return false;
        }
      }
      return true;
    }

    // ----- rotation -----

    /** Rewraps every retained version and records the new sealed master key, or changes nothing at all. */
    method RekeyWith(rotor: Rotor, sealed: SealedMaster) returns (r: Result<nat, StoreError>)
      requires Valid()
      modifies this`versions, this`sealedMaster
      ensures Valid()
      ensures match RotateAll(rotor, old(Joined()))
        case Some(after) => r == Ok(|Pending(old(versions))|) && Joined() == after && sealedMaster == Some(sealed)
        case None => r.Err? && versions == old(versions) && sealedMaster == old(sealedMaster)
    {
      hide RotatedSoFar, RewrapFor, RotateAll, ValidPath;
      var work := versions;
      var todo := Pending(versions);
      var rewrapped := 0;
      RotationStarts(rotor, heads, versions);
      while todo != {}
        invariant unchanged(this) && Valid()
        invariant todo <= Pending(versions) && rewrapped + |todo| == |Pending(versions)|
        invariant work.Keys == versions.Keys && RotatedSoFar(rotor, heads, versions, work, todo)
      {
        var k: (Id, Version) :| k in todo;
        assert HasHead(heads, k.0);
        var p :| p in heads && heads[p].id == k.0;
        RotationSteps(rotor, heads, versions, work, todo, k, p);
        var row := RewrapFor(rotor, p, k, work[k]);
        if row.Err? {
          return Err(row.error);
        }
        work := work[k := row.value];
        todo := todo - {k};
        rewrapped := rewrapped + 1;
      }
      RotationEnds(rotor, heads, versions, work);
      versions := work;
      sealedMaster := Some(sealed);
      return Ok(rewrapped);
    }
  }

  /** MAX over no rows is NULL. */
  function CurrentOf(highest: nat, versions: map<Version, VersionRow>): (r: Option<Version>)
    requires highest == MaxOf(ActiveOf(versions))
    ensures r == HighestActive(versions)
  {
    if highest == 0 then None else Some(highest)
  }
}
