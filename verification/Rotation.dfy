/** Master-key rotation of the stored data keys, and what stays readable across it. */
module Rotation {
  import opened ByteStrings
  import opened Paths
  import opened Envelope
  import opened SecretTables

  /** The plaintext every version was written with, for the specification only. */
  type Written = map<(SecretPath, Version), Bytes>

  /** Fresh nonces for the rewrapped keys, one for each version. */
  type Nonces = (SecretPath, Version) -> Nonce

  /** The sealed version a row holds, whatever its state, if its columns are all there. */
  function SealedOf(row: VersionRow): Option<SealedVersion> {
    var active := BuildSealed(row.(state := Active));
    if active.Ok? then Some(active.value) else None
  }

  predicate OpensTo(row: VersionRow, master: Key32, b: Binding, plaintext: Bytes) {
    SealedOf(row).Some? && Open(SealedOf(row).value, master, b) == Ok(plaintext)
  }

  /** Every version of `row` not destroyed opens in its own slot to what was written. */
  ghost predicate RowReadable(row: SecretRow, master: Key32, path: SecretPath, written: Written) {
    forall v :: v in row.versions && row.versions[v].state != Destroyed ==>
      (path, v) in written && OpensTo(row.versions[v], master, Binding(row.id, v), written[(path, v)])
  }

  ghost predicate Readable(secrets: Secrets, master: Key32, written: Written) {
    forall p :: p in secrets ==> RowReadable(secrets[p], master, p, written)
  }

  // ----- rewrapping -----

  function RewrapRow(row: VersionRow, oldMaster: Key32, newMaster: Key32, generation: U32, b: Binding, nonce: Nonce)
    : Result<VersionRow, StoreError>
  {
    if row.dekNonce.None? || row.wrappedDek.None? then Err(Sqlite)
    else if |row.dekNonce.value| != 24 then Err(Crypto)
    else
      match Rewrap(WrappedKey(row.wrappedDek.value, row.dekNonce.value, row.generation),
                   oldMaster, newMaster, generation, b, nonce)
      case Err(_) => Err(Crypto)
      case Ok(k) => Ok(row.(dekNonce := Some(k.dekNonce), wrappedDek := Some(k.wrappedDek), generation := k.generation))
  }

  datatype Rotor = Rotor(oldMaster: Key32, newMaster: Key32, generation: U32, nonces: Nonces)

  function Rotated(r: Rotor, path: SecretPath, id: Id, v: Version, row: VersionRow): Result<VersionRow, StoreError> {
    if row.state == Destroyed then Ok(row)
    else RewrapRow(row, r.oldMaster, r.newMaster, r.generation, Binding(id, v), r.nonces(path, v))
  }

  predicate CanRotateRow(r: Rotor, path: SecretPath, row: SecretRow) {
    forall v :: v in row.versions ==> Rotated(r, path, row.id, v, row.versions[v]).Ok?
  }

  predicate CanRotate(r: Rotor, secrets: Secrets) {
    forall p :: p in secrets ==> CanRotateRow(r, p, secrets[p])
  }

  function RotateRow(r: Rotor, path: SecretPath, row: SecretRow): SecretRow
    requires CanRotateRow(r, path, row)
  {
    row.(versions := map v | v in row.versions :: Rotated(r, path, row.id, v, row.versions[v]).value)
  }

  /** The whole transaction: every version rewrapped, or nothing at all. */
  function RotateAll(r: Rotor, secrets: Secrets): Option<Secrets> {
    if CanRotate(r, secrets) then Some(map p | p in secrets :: RotateRow(r, p, secrets[p])) else None
  }

  // ----- what rotation keeps -----

  /** Rewrapping touches the wrap alone, and the version opens under the new key only. */
  lemma RotatedVersion(r: Rotor, path: SecretPath, id: Id, v: Version, row: VersionRow, plaintext: Bytes)
    requires row.state != Destroyed && OpensTo(row, r.oldMaster, Binding(id, v), plaintext)
    ensures var row' := Rotated(r, path, id, v, row);
      && row'.Ok?
      && OpensTo(row'.value, r.newMaster, Binding(id, v), plaintext)
      && row'.value == row.(dekNonce := row'.value.dekNonce, wrappedDek := row'.value.wrappedDek,
                            generation := r.generation)
      && (forall other: Key32, b: Binding :: other != r.newMaster || b != Binding(id, v) ==>
            Open(SealedOf(row'.value).value, other, b) == Err(Decrypt))
  {
    var s := SealedOf(row).value;
    forall other: Key32, b: Binding
      ensures Rotated(r, path, id, v, row).Ok?
      ensures Open(SealedOf(Rotated(r, path, id, v, row).value).value, other, b)
           == if other == r.newMaster && b == Binding(id, v) then Ok(plaintext) else Err(Decrypt)
    {
      RewrapMovesTheKey(s, r.oldMaster, r.newMaster, r.generation, Binding(id, v), r.nonces(path, v), other, b);
    }
  }

  lemma RotatedRowSound(r: Rotor, path: SecretPath, row: SecretRow, written: Written)
    requires RowOk(row) && RowReadable(row, r.oldMaster, path, written)
    ensures CanRotateRow(r, path, row)
    ensures var row' := RotateRow(r, path, row);
      && RowOk(row') && RowReadable(row', r.newMaster, path, written) && RowEvolves(row, row')
      && row'.current == row.current && row'.versions.Keys == row.versions.Keys
  {
    hide OpensTo;
    forall v | v in row.versions && row.versions[v].state != Destroyed
      ensures OpensTo(row.versions[v], r.oldMaster, Binding(row.id, v), written[(path, v)])
    {
    }
    RotatedVersions(r, path, row, written);
    var row' := RotateRow(r, path, row);
    assert row'.versions.Keys == row.versions.Keys;
  }

  lemma RotatedVersions(r: Rotor, path: SecretPath, row: SecretRow, written: Written)
    requires RowReadable(row, r.oldMaster, path, written)
    requires forall v :: v in row.versions ==> PayloadOk(row.versions[v])
    ensures forall v :: v in row.versions ==>
      var row' := Rotated(r, path, row.id, v, row.versions[v]);
      && row'.Ok? && PayloadOk(row'.value) && VersionEvolves(row.versions[v], row'.value)
      && row'.value.state == row.versions[v].state
      && (row'.value.state != Destroyed ==>
            OpensTo(row'.value, r.newMaster, Binding(row.id, v), written[(path, v)]))
  {
  }

  /** A store readable under the old key always rotates, and is then readable under the new one. */
  lemma RotationKeepsEverything(r: Rotor, secrets: Secrets, written: Written)
    requires StoreOk(secrets) && Readable(secrets, r.oldMaster, written)
    ensures RotateAll(r, secrets).Some?
    ensures var after := RotateAll(r, secrets).value;
      && StoreOk(after) && Readable(after, r.newMaster, written) && Evolves(secrets, after)
      && after.Keys == secrets.Keys
  {
    hide RowOk, RowReadable, RowEvolves, CanRotateRow;
    forall p | p in secrets
      ensures CanRotateRow(r, p, secrets[p])
      ensures RowOk(RotateRow(r, p, secrets[p])) && RowReadable(RotateRow(r, p, secrets[p]), r.newMaster, p, written)
      ensures RowEvolves(secrets[p], RotateRow(r, p, secrets[p]))
    {
      RotatedRowSound(r, p, secrets[p], written);
    }
  }

  /** Same secrets, same versions, same states, current versions and payloads: only the wraps differ. */
  predicate OnlyWrapsDiffer(before: Secrets, after: Secrets) {
    && before.Keys == after.Keys
    && forall p :: p in before ==>
         && before[p].versions.Keys == after[p].versions.Keys
         && after[p] == before[p].(versions := after[p].versions)
         && forall v :: v in before[p].versions ==>
              var (x, y) := (before[p].versions[v], after[p].versions[v]);
              y == x.(dekNonce := y.dekNonce, wrappedDek := y.wrappedDek, generation := y.generation)
  }

  lemma RotationTouchesOnlyWraps(r: Rotor, secrets: Secrets)
    requires RotateAll(r, secrets).Some?
    ensures OnlyWrapsDiffer(secrets, RotateAll(r, secrets).value)
  {
    var after := RotateAll(r, secrets).value;
    assert after.Keys == secrets.Keys;
    forall p | p in secrets ensures secrets[p].versions.Keys == after[p].versions.Keys {
      assert CanRotateRow(r, p, secrets[p]);
    }
  }

  /** After a rotation no version that still holds ciphertext opens under the retired key. */
  lemma RetiredKeyOpensNothing(r: Rotor, secrets: Secrets, written: Written, path: SecretPath, v: Version)
    requires Readable(secrets, r.oldMaster, written) && RotateAll(r, secrets).Some?
    requires r.oldMaster != r.newMaster
    requires path in secrets && v in secrets[path].versions && secrets[path].versions[v].state != Destroyed
    ensures var row' := RotateAll(r, secrets).value[path].versions[v];
      && SealedOf(row').Some?
      && row'.nonce == secrets[path].versions[v].nonce && row'.ciphertext == secrets[path].versions[v].ciphertext
      && Open(SealedOf(row').value, r.oldMaster, Binding(secrets[path].id, v)) == Err(Decrypt)
  {
  }

  /** A retained row whose data key opens under the old master key in its own slot. */
  predicate KeyOpens(row: VersionRow, master: Key32, b: Binding) {
    && row.dekNonce.Some? && |row.dekNonce.value| == 24 && row.wrappedDek.Some?
    && OpenKey(WrappedKey(row.wrappedDek.value, row.dekNonce.value, row.generation), master, b).Ok?
  }

  /** A rotation goes through exactly when the data key of every version not destroyed opens under the old key. */
  lemma RotatesExactly(r: Rotor, secrets: Secrets)
    ensures RotateAll(r, secrets).Some? <==>
      forall p, v :: p in secrets && v in secrets[p].versions && secrets[p].versions[v].state != Destroyed ==>
        KeyOpens(secrets[p].versions[v], r.oldMaster, Binding(secrets[p].id, v))
  {
    hide OpenKey;
    forall p, v | p in secrets && v in secrets[p].versions
      ensures Rotated(r, p, secrets[p].id, v, secrets[p].versions[v]).Ok? <==>
        || secrets[p].versions[v].state == Destroyed
        || KeyOpens(secrets[p].versions[v], r.oldMaster, Binding(secrets[p].id, v))
    {
    }
    hide Rotated, KeyOpens;
    if forall p, v :: p in secrets && v in secrets[p].versions && secrets[p].versions[v].state != Destroyed ==>
         KeyOpens(secrets[p].versions[v], r.oldMaster, Binding(secrets[p].id, v)) {
      assert CanRotate(r, secrets);
    }
    if CanRotate(r, secrets) {
      forall p, v | p in secrets && v in secrets[p].versions && secrets[p].versions[v].state != Destroyed
        ensures KeyOpens(secrets[p].versions[v], r.oldMaster, Binding(secrets[p].id, v))
      {
        assert CanRotateRow(r, p, secrets[p]);
      }
    }
  }

  // ----- what the other operations keep -----

  lemma WrittenVersionOpens(master: Key32, generation: U32, b: Binding, plaintext: Bytes, rnd: Fresh, meta: Meta)
    ensures OpensTo(RowOfSealed(Seal(master, generation, b, plaintext, rnd), meta), master, b, plaintext)
  {
  }

  lemma CommitKeepsReadable(
    secrets: Secrets, master: Key32, written: Written, slot: Slot, generation: U32, plaintext: Bytes, rnd: Fresh, meta: Meta)
    requires Readable(secrets, master, written)
    requires if slot.path in secrets then slot.row == secrets[slot.path] else slot.row.versions == map[]
    ensures var sealed := Seal(master, generation, SlotBinding(slot), plaintext, rnd);
      Readable(Commit(secrets, slot, sealed, meta), master, written[(slot.path, slot.version) := plaintext])
  {
    hide OpensTo, Seal;
    var sealed := Seal(master, generation, SlotBinding(slot), plaintext, rnd);
    WrittenVersionOpens(master, generation, SlotBinding(slot), plaintext, rnd, meta);
    var (after, written') := (Commit(secrets, slot, sealed, meta), written[(slot.path, slot.version) := plaintext]);
    forall p | p in after ensures RowReadable(after[p], master, p, written') {
      if p in secrets {
        assert RowReadable(secrets[p], master, p, written);
      }
    }
  }

  lemma RollbackKeepsReadable(secrets: Secrets, master: Key32, written: Written, path: SecretPath, to: Version)
    requires Readable(secrets, master, written) && Rollback(secrets, path, to).Ok?
    ensures Readable(Rollback(secrets, path, to).value, master, written)
  {
  }

  lemma DeleteKeepsReadable(
    secrets: Secrets, master: Key32, written: Written, path: SecretPath, selector: Selector, mode: DeleteMode)
    requires Readable(secrets, master, written) && DeleteVersion(secrets, path, selector, mode).Ok?
    ensures Readable(DeleteVersion(secrets, path, selector, mode).value.0, master, written)
  {
    var (after, v) := DeleteVersion(secrets, path, selector, mode).value;
    forall p | p in after ensures RowReadable(after[p], master, p, written) {
      assert RowReadable(secrets[p], master, p, written);
      hide HighestActive;
    }
  }

  /** Whatever `read_version` hands out decrypts to what was written at that version. */
  lemma ReadsWhatWasWritten(secrets: Secrets, master: Key32, written: Written, path: SecretPath, selector: Selector)
    requires Readable(secrets, master, written)
    ensures var r := ReadVersion(secrets, path, selector);
      r.Ok? ==>
        && (path, r.value.version) in written
        && Open(r.value.sealed, master, r.value.binding) == Ok(written[(path, r.value.version)])
  {
  }
}
