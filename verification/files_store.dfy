/**
 * The file store the reconciliation updates in place: the live buckets, the
 * `RecordsBuckets` association rows (the bucket each record row points at)
 * and the generators of fresh bucket and version ids.
 */
module FilesStore {
  import opened Wrappers
  import opened Buckets

  /** A `RecordsBuckets` row, identified by the record it belongs to. */
  type RowId = nat

  /** The rows that reference bucket `b`: what `filter(bucket_id == b)` selects. */
  function RowsReferencing(rows: map<RowId, BucketId>, b: BucketId): set<RowId>
  {
    set row | row in rows && rows[row] == b
  }

  /**
   * `copy` is a snapshot of `src`: the same keys, for each key the same file
   * and tags, and version ids that are fresh (from `from` on) and pairwise
   * distinct.
   */
  ghost predicate IsSnapshot(copy: map<Key, ObjectVersion>, src: map<Key, ObjectVersion>, from: nat)
  {
    && copy.Keys == src.Keys
    && (forall k :: k in src ==>
          copy[k].fileId == src[k].fileId && copy[k].tags == src[k].tags && from <= copy[k].versionId)
    && (forall k1, k2 :: k1 in copy && k2 in copy && k1 != k2 ==> copy[k1].versionId != copy[k2].versionId)
  }

  /** The heads of a bucket whose tag loop still has `pending` slaves to visit. */
  function PartlyRetagged(heads: map<Key, ObjectVersion>, pending: set<Key>, master: VersionId): map<Key, ObjectVersion>
  {
    map k | k in heads :: if k in pending then heads[k] else Retagged(heads[k], master)
  }

  /** Visiting one more pending slave updates that key alone. */
  lemma RetagOneMore(heads: map<Key, ObjectVersion>, pending: set<Key>, k: Key, master: VersionId)
    requires k in pending && pending <= heads.Keys && IsSlave(heads[k])
    ensures PartlyRetagged(heads, pending - {k}, master)
         == PartlyRetagged(heads, pending, master)[k := heads[k].(tags := heads[k].tags[MasterTag := IdText(master)])]
  {
  }

  /** Every bucket id is below `nextBucket` and every version id below `nextVersion`. */
  ghost predicate IdsBelow(buckets: map<BucketId, Bucket>, nextBucket: nat, nextVersion: nat)
  {
    && (forall b :: b in buckets ==> b < nextBucket)
    && (forall b, k :: b in buckets && k in buckets[b].heads ==> buckets[b].heads[k].versionId < nextVersion)
  }

  /** Retagging a bucket keeps every id where it was. */
  lemma RetagKeepsIdsBelow(buckets: map<BucketId, Bucket>, b: BucketId, master: VersionId, nextBucket: nat, nextVersion: nat)
    requires IdsBelow(buckets, nextBucket, nextVersion) && b in buckets
    ensures IdsBelow(buckets[b := buckets[b].(heads := RetagAll(buckets[b].heads, master))], nextBucket, nextVersion)
  {
    var after := buckets[b := buckets[b].(heads := RetagAll(buckets[b].heads, master))];
    forall b', k | b' in after && k in after[b'].heads
      ensures after[b'].heads[k].versionId < nextVersion
    {
      if b' == b {
        assert after[b'].heads[k].versionId == buckets[b].heads[k].versionId;
      }
    }
  }

  /** Every `RecordsBuckets` row references a live bucket. */
  ghost predicate RowsLive(rows: map<RowId, BucketId>, buckets: map<BucketId, Bucket>)
  {
    forall row :: row in rows ==> rows[row] in buckets
  }

  /** No row references a bucket id that is not in use. */
  lemma UnusedIdUnreferenced(rows: map<RowId, BucketId>, buckets: map<BucketId, Bucket>, b: BucketId)
    requires RowsLive(rows, buckets) && b !in buckets
    ensures RowsReferencing(rows, b) == {}
  {
    forall row | row in rows
      ensures rows[row] != b
    {
      assert rows[row] in buckets;
    }
  }

  class Store {
    var buckets: map<BucketId, Bucket>
    var rows: map<RowId, BucketId>
    var nextBucket: nat
    var nextVersion: nat

    /**
     * Every id in use lies below its generator, so generated ids are fresh,
     * and every row references a live bucket.
     */
    ghost predicate Valid()
      reads this
    {
      IdsBelow(buckets, nextBucket, nextVersion) && RowsLive(rows, buckets)
    }

    constructor ()
      ensures Valid()
      ensures buckets == map[] && rows == map[]
    {
      buckets, rows := map[], map[];
      nextBucket, nextVersion := 0, 0;
    }

    /**
     * `Bucket.snapshot()`: a new bucket under a fresh id holding a copy of
     * every head of `src` with fresh version ids; the copy keeps the lock
     * flag of `src`.
     */
    method Snapshot(src: BucketId) returns (nb: BucketId)
      requires Valid() && src in buckets
      modifies this`buckets, this`nextBucket, this`nextVersion
      ensures Valid()
      ensures nb !in old(buckets) && nb == old(nextBucket) && nb in buckets
      ensures buckets == old(buckets)[nb := buckets[nb]]
      ensures buckets[nb].locked == old(buckets[src].locked)
      ensures IsSnapshot(buckets[nb].heads, old(buckets[src].heads), old(nextVersion))
    {
      var srcHeads := buckets[src].heads;
      var heads: map<Key, ObjectVersion> := map[];
      var todo := srcHeads.Keys;
      var v := nextVersion;
      while todo != {}
        invariant todo <= srcHeads.Keys
        invariant heads.Keys == srcHeads.Keys - todo
        invariant nextVersion <= v
        invariant forall k :: k in heads ==>
          heads[k].fileId == srcHeads[k].fileId && heads[k].tags == srcHeads[k].tags
          && nextVersion <= heads[k].versionId < v
        invariant forall k1, k2 :: k1 in heads && k2 in heads && k1 != k2 ==> heads[k1].versionId != heads[k2].versionId
        decreases todo
      {
        var k :| k in todo;
        heads := heads[k := ObjectVersion(v, srcHeads[k].fileId, srcHeads[k].tags)];
        v := v + 1;
        todo := todo - {k};
      }
      nb := nextBucket;
      buckets := buckets[nb := Bucket(buckets[src].locked, heads)];
      nextBucket := nextBucket + 1;
      nextVersion := v;
    }

    /** `bucket.locked = locked`. */
    method SetLocked(b: BucketId, locked: bool)
      requires Valid() && b in buckets
      modifies this`buckets
      ensures Valid()
      ensures buckets == old(buckets)[b := old(buckets[b]).(locked := locked)]
    {
      buckets := buckets[b := buckets[b].(locked := locked)];
    }

    /**
     * `RecordsBuckets.query.filter(bucket_id == b).one()`: the single row
     * referencing `b`, or the exception `.one()` raises.
     */
    method OneRowReferencing(b: BucketId) returns (r: Result<RowId, SyncError>)
      ensures r.Ok? <==> |RowsReferencing(rows, b)| == 1
      ensures r.Ok? ==> RowsReferencing(rows, b) == {r.value}
      ensures r == Err(NoResultFound) <==> RowsReferencing(rows, b) == {}
      ensures r == Err(MultipleResultsFound) <==> |RowsReferencing(rows, b)| > 1
    {
      var found := set row | row in rows && rows[row] == b;
      assert found == RowsReferencing(rows, b);
      if |found| == 0 {
        r := Err(NoResultFound);
      } else if |found| > 1 {
        r := Err(MultipleResultsFound);
      } else {
        var row :| row in found;
        assert |found - {row}| == 0;
        assert found == {row};
        r := Ok(row);
      }
    }

    /** `rb.bucket = b` on an existing row. */
    method Repoint(row: RowId, b: BucketId)
      requires Valid() && row in rows && b in buckets
      modifies this`rows
      ensures Valid()
      ensures rows == old(rows)[row := b]
    {
      rows := rows[row := b];
    }

    /**
     * The tag loop: for every slave head of bucket `b` (a file and a `master`
     * tag), `ObjectVersionTag.create_or_update(slave, 'master', str(master))`.
     */
    method RetagSlaves(b: BucketId, master: VersionId)
      requires Valid() && b in buckets
      modifies this`buckets
      ensures Valid()
      ensures buckets == old(buckets)[b := old(buckets[b]).(heads := RetagAll(old(buckets[b].heads), master))]
    {
      ghost var heads0 := buckets[b].heads;
      ghost var buckets0 := buckets;
      var slaves := set k | k in buckets[b].heads && IsSlave(buckets[b].heads[k]);
      assert PartlyRetagged(heads0, slaves, master) == heads0;
      assert buckets0[b := buckets0[b].(heads := heads0)] == buckets0;
      while slaves != {}
        invariant slaves <= heads0.Keys
        invariant forall k :: k in slaves ==> IsSlave(heads0[k])
        invariant buckets == buckets0[b := buckets0[b].(heads := PartlyRetagged(heads0, slaves, master))]
        decreases slaves
      {
        var k :| k in slaves;
        var slave := buckets[b].heads[k];
        RetagOneMore(heads0, slaves, k, master);
        buckets := buckets[b := buckets[b].(heads := buckets[b].heads[k := slave.(tags := slave.tags[MasterTag := IdText(master)])])];
        slaves := slaves - {k};
      }
      assert PartlyRetagged(heads0, {}, master) == RetagAll(heads0, master);
      RetagKeepsIdsBelow(buckets0, b, master, nextBucket, nextVersion);
    }

    /**
     * The tag block of the reconciliation on bucket `b`: look up the master
     * key's object in `b` and rewrite every slave's `master` tag to its
     * version id. With no master key nothing happens; if the key has no
     * object in `b`, the first slave raises before any tag is written.
     */
    method SyncMasterTags(b: BucketId, masterKey: Option<Key>) returns (r: Result<(), SyncError>)
      requires Valid() && b in buckets
      modifies this`buckets
      ensures Valid()
      ensures r.Err? <==> PropagateMaster(old(buckets[b].heads), masterKey).Err?
      ensures r.Err? ==> r.error == MasterObjectMissing && buckets == old(buckets)
      ensures r.Ok? ==> buckets == old(buckets)[b := old(buckets[b]).(heads := PropagateMaster(old(buckets[b].heads), masterKey).value)]
    {
      r := Ok(());
      if masterKey.Some? {
        var master := HeadObject(buckets[b].heads, masterKey.value);
        if master.Some? {
          RetagSlaves(b, master.value.versionId);
        } else if HasSlave(buckets[b].heads) {
          r := Err(MasterObjectMissing);
        }
      }
      if r.Ok? {
        assert buckets[b] == old(buckets[b]).(heads := PropagateMaster(old(buckets[b].heads), masterKey).value);
      }
    }

    /**
     * `bucket.remove()`: the bucket leaves the live store. No row may still
     * reference it.
     */
    method Remove(b: BucketId)
      requires Valid() && b in buckets && RowsReferencing(rows, b) == {}
      modifies this`buckets
      ensures Valid()
      ensures buckets == old(buckets) - {b}
    {
      forall row | row in rows
        ensures rows[row] != b
      {
        assert row !in RowsReferencing(rows, b);
      }
      buckets := buckets - {b};
    }
  }
}
