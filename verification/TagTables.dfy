/** The normalised `tags` and `secret_tags` tables, and the plain map they stand for. */
module TagTables {
  import opened ByteStrings
  import opened Envelope

  datatype Tag = Tag(key: string, value: string)

  datatype TagSelector = ByKey(key: string) | ByTag(tag: Tag)

  /** `tags` by row id, and the pairs of `secret_tags`. */
  datatype Tables = Tables(tags: map<nat, Tag>, links: set<(Id, nat)>)

  const NO_TAGS := Tables(map[], {})

  predicate Selects(s: TagSelector, tag: Tag) {
    match s
    case ByKey(key) => tag.key == key
    case ByTag(exact) => tag == exact
  }

  /** The tags joined to one secret. */
  function TagsOn(t: Tables, id: Id): set<Tag> {
    set l | l in t.links && l.0 == id && l.1 in t.tags :: t.tags[l.1]
  }

  /** (key, value) is UNIQUE, every link names a tag row, and no tag row is left without a link. */
  ghost predicate TagsOk(t: Tables) {
    && (forall i, j :: i in t.tags && j in t.tags && t.tags[i] == t.tags[j] ==> i == j)
    && (forall l :: l in t.links ==> l.1 in t.tags)
    && (forall i :: i in t.tags ==> exists id :: (id, i) in t.links)
  }

  // ----- statements -----

  ghost function MaxRowId(s: set<nat>): (m: nat)
    ensures forall i :: i in s ==> i <= m
    ensures m == 0 || m in s
  {
    if s == {} then 0
    else
      var i :| i in s;
      var rest := MaxRowId(s - {i});
      assert forall j :: j in s ==> j == i || j in s - {i};
      if i > rest then i else rest
  }

  /** INSERT INTO tags ... ON CONFLICT DO NOTHING. */
  ghost function InsertTag(t: Tables, tag: Tag): Tables {
    if tag in t.tags.Values then t else t.(tags := t.tags[MaxRowId(t.tags.Keys) + 1 := tag])
  }

  /** INSERT INTO secret_tags SELECT ... ON CONFLICT DO NOTHING. */
  function LinkTag(t: Tables, id: Id, tag: Tag): Tables {
    t.(links := t.links + set i | i in t.tags && t.tags[i] == tag :: (id, i))
  }

  ghost function AddTags(t: Tables, id: Id, tags: seq<Tag>): Tables
    decreases |tags|
  {
    if tags == [] then t else AddTags(LinkTag(InsertTag(t, tags[0]), id, tags[0]), id, tags[1..])
  }

  /** DELETE FROM secret_tags ... WHERE tag_id IN (SELECT ...). */
  function Unlink(t: Tables, id: Id, s: TagSelector): Tables {
    t.(links := set l | l in t.links && !(l.0 == id && l.1 in t.tags && Selects(s, t.tags[l.1])))
  }

  function UnlinkAll(t: Tables, id: Id, selectors: seq<TagSelector>): Tables
    decreases |selectors|
  {
    if selectors == [] then t else UnlinkAll(Unlink(t, id, selectors[0]), id, selectors[1..])
  }

  /** DELETE FROM tags WHERE id NOT IN (SELECT tag_id FROM secret_tags). */
  function Sweep(t: Tables): Tables {
    var used := set l | l in t.links :: l.1;
    t.(tags := map i | i in t.tags && i in used :: t.tags[i])
  }

  function RemoveTags(t: Tables, id: Id, selectors: seq<TagSelector>): Tables {
    Sweep(UnlinkAll(t, id, selectors))
  }

  // ----- one statement at a time -----

  /** After the first INSERT exactly one row holds the tag; all other rows are as before. */
  lemma InsertedTag(t: Tables, tag: Tag) returns (k: nat)
    requires TagsOk(t)
    ensures var t1 := InsertTag(t, tag);
      && t1.links == t.links
      && k in t1.tags && t1.tags[k] == tag
      && (forall i :: i in t1.tags <==> i in t.tags || i == k)
      && (forall i :: i in t.tags ==> t1.tags[i] == t.tags[i])
      && (forall i, j :: i in t1.tags && j in t1.tags && t1.tags[i] == t1.tags[j] ==> i == j)
  {
    if tag in t.tags.Values {
      k :| k in t.tags && t.tags[k] == tag;
    } else {
      k := MaxRowId(t.tags.Keys) + 1;
    }
  }

  lemma AddOneTag(t: Tables, id: Id, tag: Tag)
    requires TagsOk(t)
    ensures var t' := LinkTag(InsertTag(t, tag), id, tag);
      && TagsOk(t')
      && TagsOn(t', id) == TagsOn(t, id) + {tag}
      && forall other :: other != id ==> TagsOn(t', other) == TagsOn(t, other)
  {
    var k := InsertedTag(t, tag);
    hide InsertTag;
    var t' := LinkTag(InsertTag(t, tag), id, tag);
    assert t'.links == t.links + {(id, k)};
    forall i | i in t'.tags ensures exists id' :: (id', i) in t'.links {
      if i == k {
        assert (id, i) in t'.links;
      } else {
        var id' :| (id', i) in t.links;
        assert (id', i) in t'.links;
      }
    }
    OneMoreLink(t, t', id, k);
  }

  lemma OneMoreLink(t: Tables, t': Tables, id: Id, k: nat)
    requires forall l :: l in t.links ==> l.1 in t.tags
    requires t'.links == t.links + {(id, k)} && k in t'.tags
    requires forall i :: i in t.tags ==> i in t'.tags && t'.tags[i] == t.tags[i]
    ensures TagsOn(t', id) == TagsOn(t, id) + {t'.tags[k]}
    ensures forall other :: other != id ==> TagsOn(t', other) == TagsOn(t, other)
  {
  }

  lemma UnlinkOne(t: Tables, id: Id, s: TagSelector)
    requires forall l :: l in t.links ==> l.1 in t.tags
    ensures var t' := Unlink(t, id, s);
      && t'.tags == t.tags && t'.links <= t.links
      && TagsOn(t', id) == (set tag | tag in TagsOn(t, id) && !Selects(s, tag))
      && forall other :: other != id ==> TagsOn(t', other) == TagsOn(t, other)
  {
  }

  lemma SweepKeepsTags(t: Tables, id: Id)
    requires forall l :: l in t.links ==> l.1 in t.tags
    ensures TagsOn(Sweep(t), id) == TagsOn(t, id)
  {
  }

  lemma SweepLeavesNoOrphan(t: Tables)
    requires forall l :: l in t.links ==> l.1 in t.tags
    requires forall i, j :: i in t.tags && j in t.tags && t.tags[i] == t.tags[j] ==> i == j
    ensures TagsOk(Sweep(t))
  {
  }

  // ----- whole operations -----

  lemma {:induction false} AddTagsMeans(t: Tables, id: Id, tags: seq<Tag>)
    requires TagsOk(t)
    ensures var t' := AddTags(t, id, tags);
      && TagsOk(t')
      && TagsOn(t', id) == TagsOn(t, id) + (set tag | tag in tags)
      && forall other :: other != id ==> TagsOn(t', other) == TagsOn(t, other)
    decreases |tags|
  {
    if tags != [] {
      var t1 := LinkTag(InsertTag(t, tags[0]), id, tags[0]);
      AddOneTag(t, id, tags[0]);
      assert AddTags(t, id, tags) == AddTags(t1, id, tags[1..]);
      hide TagsOk, LinkTag, InsertTag, TagsOn, AddTags;
      AddTagsMeans(t1, id, tags[1..]);
      assert (set tag | tag in tags) == {tags[0]} + (set tag | tag in tags[1..]);
    }
  }

  /** Adding tags to one secret touches no link of another. */
  lemma {:induction false} AddTagsLinks(t: Tables, id: Id, tags: seq<Tag>)
    ensures forall l :: l in AddTags(t, id, tags).links ==> l in t.links || l.0 == id
    decreases |tags|
  {
    if tags != [] {
      AddTagsLinks(LinkTag(InsertTag(t, tags[0]), id, tags[0]), id, tags[1..]);
    }
  }

  predicate AnySelects(selectors: seq<TagSelector>, tag: Tag) {
    exists i :: 0 <= i < |selectors| && Selects(selectors[i], tag)
  }

  lemma {:induction false} UnlinkAllMeans(t: Tables, id: Id, selectors: seq<TagSelector>)
    requires forall l :: l in t.links ==> l.1 in t.tags
    ensures var t' := UnlinkAll(t, id, selectors);
      && t'.tags == t.tags && t'.links <= t.links
      && TagsOn(t', id) == (set tag | tag in TagsOn(t, id) && !AnySelects(selectors, tag))
      && forall other :: other != id ==> TagsOn(t', other) == TagsOn(t, other)
    decreases |selectors|
  {
    if selectors != [] {
      UnlinkOne(t, id, selectors[0]);
      var t1 := Unlink(t, id, selectors[0]);
      UnlinkAllMeans(t1, id, selectors[1..]);
      hide Unlink, TagsOn;
      forall tag ensures AnySelects(selectors, tag) <==> Selects(selectors[0], tag) || AnySelects(selectors[1..], tag) {
        if AnySelects(selectors, tag) {
          var i :| 0 <= i < |selectors| && Selects(selectors[i], tag);
          assert i > 0 ==> selectors[1..][i - 1] == selectors[i];
        }
        if AnySelects(selectors[1..], tag) {
          var i :| 0 <= i < |selectors[1..]| && Selects(selectors[1..][i], tag);
          assert selectors[i + 1] == selectors[1..][i];
        }
      }
    }
  }

  lemma RemoveTagsMeans(t: Tables, id: Id, selectors: seq<TagSelector>)
    requires TagsOk(t)
    ensures var t' := RemoveTags(t, id, selectors);
      && TagsOk(t')
      && TagsOn(t', id) == (set tag | tag in TagsOn(t, id) && !AnySelects(selectors, tag))
      && forall other :: other != id ==> TagsOn(t', other) == TagsOn(t, other)
  {
    UnlinkAllMeans(t, id, selectors);
    var t1 := UnlinkAll(t, id, selectors);
    SweepLeavesNoOrphan(t1);
    forall other { SweepKeepsTags(t1, other); }
  }

  // ----- operations cut short -----

  /** What every single statement keeps: tag rows are unique and links name one. Orphans are not excluded. */
  predicate LinksOk(t: Tables) {
    && (forall i, j :: i in t.tags && j in t.tags && t.tags[i] == t.tags[j] ==> i == j)
    && (forall l :: l in t.links ==> l.1 in t.tags)
  }

  /**
   * `add_tags` commits statement by statement. Cut short after `k` tags it has added exactly those; cut short
   * between the two statements of the next one, it carries no tag more, and has left an orphaned row exactly when
   * that tag was new to the store.
   */
  lemma AddTagsCutShort(t: Tables, id: Id, tags: seq<Tag>, k: nat)
    requires TagsOk(t) && k < |tags|
    ensures var (whole, half) := (AddTags(t, id, tags[..k]), InsertTag(AddTags(t, id, tags[..k]), tags[k]));
      && TagsOk(whole) && LinksOk(half)
      && TagsOn(whole, id) == TagsOn(t, id) + (set tag | tag in tags[..k])
      && (forall other :: other != id ==> TagsOn(whole, other) == TagsOn(t, other))
      && (forall any :: TagsOn(half, any) == TagsOn(whole, any))
      && (TagsOk(half) <==> tags[k] in whole.tags.Values)
  {
    AddTagsMeans(t, id, tags[..k]);
    hide AddTags, MaxRowId;
    var whole := AddTags(t, id, tags[..k]);
    var row := InsertedTag(whole, tags[k]);
    HalfAdded(whole, tags[k]);
  }

  lemma HalfAdded(t: Tables, tag: Tag)
    requires TagsOk(t)
    ensures var half := InsertTag(t, tag);
      && LinksOk(half) && (forall any :: TagsOn(half, any) == TagsOn(t, any))
      && (TagsOk(half) <==> tag in t.tags.Values)
  {
    if tag !in t.tags.Values {
      var row := MaxRowId(t.tags.Keys) + 1;
      var half := InsertTag(t, tag);
      assert half == t.(tags := t.tags[row := tag]);
      hide MaxRowId, InsertTag;
      assert row in half.tags && forall id :: (id, row) !in half.links;
    }
  }

  /** The next removal of any tags from any secret, completed, sweeps such an orphan away. */
  lemma RemovalMends(t: Tables, id: Id, selectors: seq<TagSelector>)
    requires LinksOk(t)
    ensures TagsOk(RemoveTags(t, id, selectors))
  {
    UnlinkAllMeans(t, id, selectors);
    hide UnlinkAll, TagsOn, Sweep;
    SweepLeavesNoOrphan(UnlinkAll(t, id, selectors));
  }

  /**
   * `remove_tags` cut short before its sweep has removed exactly what the selectors so far select, and is sound
   * exactly when every tag still has a secret that carries it.
   */
  lemma RemoveTagsCutShort(t: Tables, id: Id, selectors: seq<TagSelector>, k: nat)
    requires TagsOk(t) && k <= |selectors|
    ensures var t' := UnlinkAll(t, id, selectors[..k]);
      && LinksOk(t')
      && TagsOn(t', id) == (set tag | tag in TagsOn(t, id) && !AnySelects(selectors[..k], tag))
      && (forall other :: other != id ==> TagsOn(t', other) == TagsOn(t, other))
      && (TagsOk(t') <==> forall i :: i in t.tags ==> exists any :: t.tags[i] in TagsOn(t', any))
  {
    UnlinkAllMeans(t, id, selectors[..k]);
    NoOrphansMeans(UnlinkAll(t, id, selectors[..k]));
    hide UnlinkAll, AnySelects, TagsOn;
  }

  lemma NoOrphansMeans(t: Tables)
    requires LinksOk(t)
    ensures TagsOk(t) <==> forall i :: i in t.tags ==> exists any :: t.tags[i] in TagsOn(t, any)
  {
    hide TagsOn;
    forall i | i in t.tags
      ensures (exists any :: t.tags[i] in TagsOn(t, any)) <==> (exists any :: (any, i) in t.links)
    {
      CarriedByALink(t, i);
    }
  }

  lemma CarriedByALink(t: Tables, i: nat)
    requires LinksOk(t) && i in t.tags
    ensures (exists any :: t.tags[i] in TagsOn(t, any)) <==> (exists any :: (any, i) in t.links)
  {
    if any :| (any, i) in t.links {
      assert t.tags[i] in TagsOn(t, any);
    }
  }

  // ----- any run -----

  datatype TagOp = Add(id: Id, tags: seq<Tag>) | Remove(id: Id, selectors: seq<TagSelector>)

  ghost function Run(t: Tables, ops: seq<TagOp>): Tables
    decreases |ops|
  {
    if ops == [] then t
    else
      match ops[0]
      case Add(id, tags) => Run(AddTags(t, id, tags), ops[1..])
      case Remove(id, selectors) => Run(RemoveTags(t, id, selectors), ops[1..])
  }

  function TagsIn(m: map<Id, set<Tag>>, id: Id): set<Tag> {
    if id in m then m[id] else {}
  }

  /** The same run on a plain map from secret to its set of tags. */
  function RunOnMap(m: map<Id, set<Tag>>, ops: seq<TagOp>): map<Id, set<Tag>>
    decreases |ops|
  {
    if ops == [] then m
    else
      match ops[0]
      case Add(id, tags) => RunOnMap(m[id := TagsIn(m, id) + (set tag | tag in tags)], ops[1..])
      case Remove(id, selectors) =>
        RunOnMap(m[id := set tag | tag in TagsIn(m, id) && !AnySelects(selectors, tag)], ops[1..])
  }

  ghost predicate Represents(t: Tables, m: map<Id, set<Tag>>) {
    TagsOk(t) && forall id :: TagsOn(t, id) == TagsIn(m, id)
  }

  /** Over any run of adds and removes the tables stand for the plain map, with no orphaned tag row. */
  lemma {:induction false} TablesAreAPlainMap(t: Tables, m: map<Id, set<Tag>>, ops: seq<TagOp>)
    requires Represents(t, m)
    ensures Represents(Run(t, ops), RunOnMap(m, ops))
    decreases |ops|
  {
    if ops != [] {
      hide TagsOk, TagsOn, AddTags, RemoveTags;
      match ops[0] {
        case Add(id, tags) =>
          AddTagsMeans(t, id, tags);
          TablesAreAPlainMap(AddTags(t, id, tags), m[id := TagsIn(m, id) + (set tag | tag in tags)], ops[1..]);
        case Remove(id, selectors) =>
          RemoveTagsMeans(t, id, selectors);
          TablesAreAPlainMap(RemoveTags(t, id, selectors),
                             m[id := set tag | tag in TagsIn(m, id) && !AnySelects(selectors, tag)], ops[1..]);
      }
    }
  }

  /** `all_distinct_tags` lists exactly the tags some secret carries. */
  lemma DistinctTagsAreCarried(t: Tables, tag: Tag)
    requires TagsOk(t)
    ensures tag in t.tags.Values <==> exists id :: tag in TagsOn(t, id)
  {
    if tag in t.tags.Values {
      var i :| i in t.tags && t.tags[i] == tag;
      var id :| (id, i) in t.links;
      assert tag in TagsOn(t, id);
    }
  }

  /** The EXISTS subquery of a tag filter: some link of this secret joins a row with this key and value. */
  predicate HasTagRow(t: Tables, id: Id, tag: Tag) {
    exists l :: l in t.links && l.0 == id && l.1 in t.tags && t.tags[l.1].key == tag.key && t.tags[l.1].value == tag.value
  }

  lemma HasTagRowMeans(t: Tables, id: Id, tag: Tag)
    ensures HasTagRow(t, id, tag) <==> tag in TagsOn(t, id)
  {
  }
}
