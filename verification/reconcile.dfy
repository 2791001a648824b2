/**
 * `_force_sync_deposit_bucket`, the body of `fix_bucket_conflict`: replace
 * a deposit's bucket with a fresh, unlocked copy of its published record's
 * bucket, repoint the deposit's association row at the copy, make every
 * slave's `master` tag name the master object of the copy, remove the old
 * bucket and update the bucket pointers cached in both metadata documents.
 */
module Reconcile {
  import opened Wrappers
  import opened Buckets
  import opened FilesStore

  /** The `_buckets` entry that names the deposit's bucket. */
  const DepositRole: string := "deposit"

  /** The metadata dictionary of a record or a deposit, reduced to the entries the procedure touches. */
  class Document {
    /** `_buckets`: role to bucket id text. */
    var buckets: map<string, string>
    /** `_deposit`: the deposit bookkeeping block. */
    var depositInfo: map<string, string>

    constructor (buckets: map<string, string>, depositInfo: map<string, string>)
      ensures this.buckets == buckets && this.depositInfo == depositInfo
    {
      this.buckets := buckets;
      this.depositInfo := depositInfo;
    }
  }

  /** Every row that referenced `from` now references `to`; all other rows are as before. */
  ghost predicate Repointed(after: map<RowId, BucketId>, before: map<RowId, BucketId>, from: BucketId, to: BucketId)
  {
    && after.Keys == before.Keys
    && forall row :: row in before ==> after[row] == if before[row] == from then to else before[row]
  }

  /** The heads of a snapshot of `src` taken from version id `from` on (see `IsSnapshot`), unlocked. */
  ghost predicate UnlockedSnapshot(nb: Bucket, src: Bucket, from: nat)
  {
    !nb.locked && IsSnapshot(nb.heads, src.heads, from)
  }

  /**
   * The new bucket after the tag step: an unlocked copy of `src` with fresh,
   * distinct version ids, the same files and tags, except that when the
   * master key has an object in the copy, every slave's `master` tag holds
   * that object's version id.
   */
  ghost predicate SyncedCopy(nb: Bucket, src: Bucket, masterKey: Option<Key>, from: nat)
  {
    && !nb.locked
    && nb.heads.Keys == src.heads.Keys
    && (forall k :: k in src.heads ==> nb.heads[k].fileId == src.heads[k].fileId && from <= nb.heads[k].versionId)
    && (forall k1, k2 :: k1 in nb.heads && k2 in nb.heads && k1 != k2 ==> nb.heads[k1].versionId != nb.heads[k2].versionId)
    && (forall k :: k in src.heads ==>
          nb.heads[k].tags ==
            if masterKey.Some? && HeadObject(nb.heads, masterKey.value).Some? && IsSlave(src.heads[k])
            then src.heads[k].tags[MasterTag := IdText(nb.heads[masterKey.value].versionId)]
            else src.heads[k].tags)
  }

  /** A snapshot has the same slaves and the same master object (up to version ids) as its source. */
  lemma SnapshotKeepsSlaves(copy: map<Key, ObjectVersion>, src: map<Key, ObjectVersion>, from: nat, key: Key)
    requires IsSnapshot(copy, src, from)
    ensures forall k :: k in src ==> (IsSlave(copy[k]) <==> IsSlave(src[k]))
    ensures HasSlave(copy) <==> HasSlave(src)
    ensures HeadObject(copy, key).None? <==> HeadObject(src, key).None?
  {
    if HasSlave(src) {
      var k :| k in src && IsSlave(src[k]);
      assert IsSlave(copy[k]);
    }
    if HasSlave(copy) {
      var k :| k in copy && IsSlave(copy[k]);
      assert IsSlave(src[k]);
    }
  }

  /**
   * After a completed reconciliation no stale `master` tag is left: if the
   * master file has an object in the new bucket, every slave names it, and
   * so names no other version; otherwise every tag is as in the record's
   * bucket.
   */
  lemma {:induction false} NoStaleMasterTags(nb: Bucket, src: Bucket, masterKey: Option<Key>, from: nat)
    requires SyncedCopy(nb, src, masterKey, from)
    ensures masterKey.Some? && HeadObject(nb.heads, masterKey.value).Some? ==>
      forall k :: k in nb.heads && IsSlave(nb.heads[k]) ==>
        nb.heads[k].tags[MasterTag] == IdText(nb.heads[masterKey.value].versionId)
    ensures masterKey.Some? && HeadObject(nb.heads, masterKey.value).Some? ==>
      forall k, v: VersionId :: k in nb.heads && IsSlave(nb.heads[k]) && v != nb.heads[masterKey.value].versionId ==>
        nb.heads[k].tags[MasterTag] != IdText(v)
    ensures masterKey.None? || HeadObject(nb.heads, masterKey.value).None? ==>
      forall k :: k in nb.heads ==> nb.heads[k].tags == src.heads[k].tags
  {
    if masterKey.Some? && HeadObject(nb.heads, masterKey.value).Some? {
      forall k | k in nb.heads && IsSlave(nb.heads[k])
        ensures nb.heads[k].tags[MasterTag] == IdText(nb.heads[masterKey.value].versionId)
      {
        assert k in src.heads;
      }
      forall v: VersionId | v != nb.heads[masterKey.value].versionId
        ensures IdText(v) != IdText(nb.heads[masterKey.value].versionId)
      {
        IdTextInjective(v, nb.heads[masterKey.value].versionId);
      }
    }
  }

  /** The new bucket's heads with the record's tags put back: the snapshot before the tag step. */
  ghost function UntaggedHeads(nb: Bucket, src: Bucket): map<Key, ObjectVersion>
    requires nb.heads.Keys == src.heads.Keys
  {
    map k | k in nb.heads :: nb.heads[k].(tags := src.heads[k].tags)
  }

  /** Putting the record's tags back gives a snapshot of the record's bucket. */
  lemma UntaggedIsSnapshot(nb: Bucket, src: Bucket, masterKey: Option<Key>, from: nat)
    requires SyncedCopy(nb, src, masterKey, from)
    ensures IsSnapshot(UntaggedHeads(nb, src), src.heads, from)
  {
    var copy := UntaggedHeads(nb, src);
    forall k1, k2 | k1 in copy && k2 in copy && k1 != k2
      ensures copy[k1].versionId != copy[k2].versionId
    {
      assert copy[k1].versionId == nb.heads[k1].versionId;
      assert copy[k2].versionId == nb.heads[k2].versionId;
    }
  }

  /** With the master object found, retagging the untagged heads rebuilds the new bucket's heads. */
  lemma RetagRebuildsHeads(nb: Bucket, src: Bucket, key: Key, from: nat)
    requires SyncedCopy(nb, src, Some(key), from) && HeadObject(nb.heads, key).Some?
    ensures RetagAll(UntaggedHeads(nb, src), nb.heads[key].versionId) == nb.heads
  {
    var copy := UntaggedHeads(nb, src);
    var v := nb.heads[key].versionId;
    forall k | k in nb.heads
      ensures Retagged(copy[k], v) == nb.heads[k]
    {
      assert IsSlave(copy[k]) <==> IsSlave(src.heads[k]);
    }
  }

  /**
   * The new bucket is exactly what the tag step `PropagateMaster` makes of a
   * snapshot of the record's bucket.
   */
  lemma {:induction false} SyncedCopyIsPropagation(nb: Bucket, src: Bucket, masterKey: Option<Key>, from: nat)
    requires SyncedCopy(nb, src, masterKey, from)
    requires !(masterKey.Some? && HeadObject(src.heads, masterKey.value).None? && HasSlave(src.heads))
    ensures IsSnapshot(UntaggedHeads(nb, src), src.heads, from)
    ensures PropagateMaster(UntaggedHeads(nb, src), masterKey) == Ok(nb.heads)
  {
    var copy := UntaggedHeads(nb, src);
    UntaggedIsSnapshot(nb, src, masterKey, from);
    if masterKey.Some? {
      var key := masterKey.value;
      SnapshotKeepsSlaves(copy, src.heads, from, key);
      if HeadObject(copy, key).Some? {
        RetagRebuildsHeads(nb, src, key, from);
      } else {
        assert copy == nb.heads;
      }
    } else {
      assert copy == nb.heads;
    }
  }

  /** The tag step applied to an unlocked snapshot yields a synchronised copy. */
  lemma {:induction false} TagStepSynced(copy: Bucket, src: Bucket, masterKey: Option<Key>, from: nat)
    requires UnlockedSnapshot(copy, src, from)
    requires PropagateMaster(copy.heads, masterKey).Ok?
    ensures SyncedCopy(copy.(heads := PropagateMaster(copy.heads, masterKey).value), src, masterKey, from)
  {
    var nb := copy.(heads := PropagateMaster(copy.heads, masterKey).value);
    if masterKey.Some? {
      var key := masterKey.value;
      SnapshotKeepsSlaves(copy.heads, src.heads, from, key);
      if HeadObject(copy.heads, key).Some? {
        var v := copy.heads[key].versionId;
        assert nb.heads == RetagAll(copy.heads, v);
        assert HeadObject(nb.heads, key).Some? && nb.heads[key].versionId == v;
      } else {
        assert nb == copy;
      }
    } else {
      assert nb == copy;
    }
  }

  /** Repointing the only row that references `from` repoints every such row. */
  lemma RepointOne(rows: map<RowId, BucketId>, row: RowId, from: BucketId, to: BucketId)
    requires RowsReferencing(rows, from) == {row} && from != to
    ensures Repointed(rows[row := to], rows, from, to)
    ensures RowsReferencing(rows[row := to], from) == {}
    ensures RowsReferencing(rows[row := to], to) == RowsReferencing(rows, to) + {row}
  {
    forall r | r in rows && rows[r] == from
      ensures r == row
    {
      assert r in RowsReferencing(rows, from);
    }
  }

  /** Removing a key commutes with updating another one. */
  lemma RemoveAfterUpdate(m: map<BucketId, Bucket>, kept: BucketId, v: Bucket, gone: BucketId)
    requires kept != gone
    ensures m[kept := v] - {gone} == (m - {gone})[kept := v]
  {
  }

  /** A second update of the same key overrides the first. */
  lemma UpdateTwice(m: map<BucketId, Bucket>, k: BucketId, v: Bucket, w: Bucket)
    ensures m[k := v][k := w] == m[k := w]
  {
  }

  /**
   * The closing block of the reconciliation: unlock and remove the old
   * deposit bucket, point `_buckets.deposit` of both documents at the new
   * bucket and copy the deposit's `_deposit` block to the record.
   */
  method RetireOldBucket(store: Store, deposit: Document, record: Document, oldBucket: BucketId, nb: BucketId)
    requires store.Valid() && oldBucket in store.buckets && nb != oldBucket
    requires RowsReferencing(store.rows, oldBucket) == {}
    requires deposit != record
    modifies store`buckets, deposit, record
    ensures store.Valid()
    ensures store.buckets == old(store.buckets) - {oldBucket}
    ensures deposit.buckets == old(deposit.buckets)[DepositRole := IdText(nb)]
    ensures record.buckets == old(record.buckets)[DepositRole := IdText(nb)]
    ensures deposit.depositInfo == old(deposit.depositInfo)
    ensures record.depositInfo == old(deposit.depositInfo)
  {
    store.SetLocked(oldBucket, false);
    store.Remove(oldBucket);
    var text := IdText(nb);
    deposit.buckets := deposit.buckets[DepositRole := text];
    record.buckets := record.buckets[DepositRole := text];
    record.depositInfo := deposit.depositInfo;
  }

  /**
   * The reconciliation. `recordBucket` and `depositBucket` are the buckets
   * that `record.files` and `deposit.files` resolve to; `masterKey` is the
   * key of the master video file `get_master_video_file(record)` reports, if
   * any. On success it returns (old deposit bucket, new bucket); on an
   * exception it returns the error and leaves the state the committed steps
   * before it left.
   */
  method ForceSyncDepositBucket(store: Store, deposit: Document, record: Document,
                                recordBucket: BucketId, depositBucket: BucketId, masterKey: Option<Key>)
    returns (r: Result<(BucketId, BucketId), SyncError>)
    requires store.Valid()
    requires recordBucket in store.buckets && depositBucket in store.buckets
    requires deposit != record
    modifies store, deposit, record
    ensures store.Valid()
    // the snapshot is committed before anything can fail
    ensures var nb := old(store.nextBucket);
      && nb !in old(store.buckets) && nb != recordBucket && nb != depositBucket
      && nb in store.buckets && !store.buckets[nb].locked
    // which exception, if any, is raised
    ensures var rowsFor := RowsReferencing(old(store.rows), depositBucket);
      && (r == Err(NoResultFound) <==> rowsFor == {})
      && (r == Err(MultipleResultsFound) <==> |rowsFor| > 1)
      && (r == Err(MasterObjectMissing) <==>
            |rowsFor| == 1 && masterKey.Some? && HasSlave(old(store.buckets[recordBucket].heads))
            && HeadObject(old(store.buckets[recordBucket].heads), masterKey.value).None?)
    // state left behind by an exception
    ensures r.Err? ==> var nb := old(store.nextBucket);
      && store.buckets == old(store.buckets)[nb := store.buckets[nb]]
      && UnlockedSnapshot(store.buckets[nb], old(store.buckets[recordBucket]), old(store.nextVersion))
      && unchanged(deposit, record)
    ensures r.Err? && r.error != MasterObjectMissing ==> store.rows == old(store.rows)
    ensures r == Err(MasterObjectMissing) ==> Repointed(store.rows, old(store.rows), depositBucket, old(store.nextBucket))
    // the new bucket backs exactly the row the old one backed
    ensures (r.Ok? || r == Err(MasterObjectMissing)) ==>
      RowsReferencing(store.rows, old(store.nextBucket)) == RowsReferencing(old(store.rows), depositBucket)
    // the final state of a completed reconciliation
    ensures r.Ok? ==> var nb := old(store.nextBucket);
      && r.value == (depositBucket, nb)
      && Repointed(store.rows, old(store.rows), depositBucket, nb)
      && RowsReferencing(store.rows, depositBucket) == {}
      && depositBucket !in store.buckets
      && store.buckets == (old(store.buckets) - {depositBucket})[nb := store.buckets[nb]]
      && SyncedCopy(store.buckets[nb], old(store.buckets[recordBucket]), masterKey, old(store.nextVersion))
      && deposit.buckets == old(deposit.buckets)[DepositRole := IdText(nb)]
      && record.buckets == old(record.buckets)[DepositRole := IdText(nb)]
      && deposit.depositInfo == old(deposit.depositInfo)
      && record.depositInfo == old(deposit.depositInfo)
    // the cached pointers agree with the association row
    ensures r.Ok? ==> forall row :: row in RowsReferencing(old(store.rows), depositBucket) ==>
      && store.rows[row] == r.value.1
      && deposit.buckets[DepositRole] == IdText(store.rows[row])
      && record.buckets[DepositRole] == IdText(store.rows[row])
  {
    ghost var src := store.buckets[recordBucket];
    ghost var rows0 := store.rows;
    ghost var buckets0 := store.buckets;
    ghost var from := store.nextVersion;
    var oldBucket := depositBucket;

    // snapshot the record bucket and unlock the copy
    var nb := store.Snapshot(recordBucket);
    store.SetLocked(nb, false);
    ghost var unlocked := store.buckets[nb];
    assert store.buckets == buckets0[nb := unlocked];

    // repoint the single association row of the old bucket
    var one := store.OneRowReferencing(oldBucket);
    if one.Err? {
      return Err(one.error);
    }
    UnusedIdUnreferenced(rows0, buckets0, nb);
    store.Repoint(one.value, nb);
    RepointOne(rows0, one.value, depositBucket, nb);
    ghost var backed := RowsReferencing(store.rows, nb);
    assert backed == RowsReferencing(rows0, depositBucket);

    // make the slaves' master tags name the master object of the new bucket
    if masterKey.Some? {
      SnapshotKeepsSlaves(unlocked.heads, src.heads, from, masterKey.value);
    }
    var tagged := store.SyncMasterTags(nb, masterKey);
    if tagged.Err? {
      return Err(MasterObjectMissing);
    }
    TagStepSynced(unlocked, src, masterKey, from);
    ghost var synced := store.buckets[nb];
    UpdateTwice(buckets0, nb, unlocked, synced);

    // remove the old bucket and update the cached pointers
    RetireOldBucket(store, deposit, record, oldBucket, nb);
    RemoveAfterUpdate(buckets0, nb, synced, oldBucket);
    r := Ok((oldBucket, nb));
  }
}
