/**
 * Values of the file store as the reconciliation sees them: buckets of head
 * object versions, each with a version id, an optional file (none for a
 * delete marker) and a tag map. The `master` tag of a slave (a derived
 * rendition) holds the version id of the master rendition, as text.
 */
module Buckets {
  import opened Wrappers

  type BucketId = nat
  type VersionId = nat
  type FileId = nat
  /** The object key (file name) inside a bucket. */
  type Key = string

  /** The tag key that links a slave to its master. */
  const MasterTag: string := "master"

  /** A head object version of a bucket. `fileId == None` is a delete marker. */
  datatype ObjectVersion = ObjectVersion(versionId: VersionId, fileId: Option<FileId>, tags: map<string, string>)

  /** A bucket: its lock flag and its head object versions keyed by object key. */
  datatype Bucket = Bucket(locked: bool, heads: map<Key, ObjectVersion>)

  /** The reasons the reconciliation stops with an exception. */
  datatype SyncError =
    | NoResultFound          // `.one()` found no association row for the old bucket
    | MultipleResultsFound   // `.one()` found several
    | MasterObjectMissing    // the master key has no object in the new bucket, but a slave does

  function DigitChar(d: nat): char
    requires d < 10
  {
    "0123456789"[d]
  }

  /** `str(id)`: the decimal text of an identifier. */
  function IdText(n: nat): string
  {
    (if n < 10 then "" else IdText(n / 10)) + [DigitChar(n % 10)]
  }

  /** The text of an identifier has one digit per decimal place: a single digit below ten. */
  lemma {:induction false} IdTextLength(n: nat)
    ensures |IdText(n)| >= 1
    ensures |IdText(n)| == 1 <==> n < 10
  {
    if n >= 10 {
      IdTextLength(n / 10);
    }
  }

  /** Distinct identifiers have distinct texts, so a tag names exactly one version. */
  lemma {:induction false} IdTextInjective(a: nat, b: nat)
    ensures IdText(a) == IdText(b) ==> a == b
  {
    if IdText(a) == IdText(b) {
      IdTextLength(a);
      IdTextLength(b);
      var ta, tb := IdText(a), IdText(b);
      assert DigitChar(a % 10) == ta[|ta| - 1] == tb[|tb| - 1] == DigitChar(b % 10);
      assert a % 10 == b % 10;
      if a >= 10 {
        assert IdText(a / 10) == ta[..|ta| - 1] == tb[..|tb| - 1] == IdText(b / 10);
        IdTextInjective(a / 10, b / 10);
      }
    }
  }

  /**
   * The filter of the tag loop: a head with a file (not a delete marker) that
   * already carries a `master` tag.
   */
  predicate IsSlave(o: ObjectVersion)
  {
    o.fileId.Some? && MasterTag in o.tags
  }

  /** `ObjectVersion.get(bucket, key)`: the head for `key`, unless absent or a delete marker. */
  function HeadObject(heads: map<Key, ObjectVersion>, key: Key): Option<ObjectVersion>
  {
    if key in heads && heads[key].fileId.Some? then Some(heads[key]) else None
  }

  /** Some head object of the bucket passes the slave filter. */
  predicate HasSlave(heads: map<Key, ObjectVersion>)
  {
    exists k :: k in heads && IsSlave(heads[k])
  }

  /** `ObjectVersionTag.create_or_update(o, 'master', str(master))`, applied to a slave only. */
  function Retagged(o: ObjectVersion, master: VersionId): ObjectVersion
  {
    if IsSlave(o) then o.(tags := o.tags[MasterTag := IdText(master)]) else o
  }

  /** The tag loop over every head of a bucket. */
  function RetagAll(heads: map<Key, ObjectVersion>, master: VersionId): map<Key, ObjectVersion>
  {
    map k | k in heads :: Retagged(heads[k], master)
  }

  /**
   * The tag step of the reconciliation on the heads of the new bucket, given
   * the key of the master file if one was found. With no master key the heads
   * are left as they are. With one, every slave's `master` tag is set to the
   * version id of the master key's object in the same heads; only existing
   * `master` tags are rewritten, and nothing else of any object changes. If
   * the key has no object there, the first slave raises; with no slave,
   * nothing happens.
   */
  function PropagateMaster(heads: map<Key, ObjectVersion>, masterKey: Option<Key>)
    : (r: Result<map<Key, ObjectVersion>, SyncError>)
    ensures masterKey.None? ==> r == Ok(heads)
    ensures r.Err? <==> masterKey.Some? && HeadObject(heads, masterKey.value).None? && HasSlave(heads)
    ensures r.Err? ==> r.error == MasterObjectMissing
    ensures r.Ok? && masterKey.Some? && HeadObject(heads, masterKey.value).None? ==> r.value == heads
    ensures r.Ok? ==> r.value.Keys == heads.Keys
    ensures r.Ok? ==> forall k :: k in heads ==>
      && r.value[k].versionId == heads[k].versionId
      && r.value[k].fileId == heads[k].fileId
      && r.value[k].tags.Keys == heads[k].tags.Keys
      && (forall t :: t in heads[k].tags && t != MasterTag ==> r.value[k].tags[t] == heads[k].tags[t])
      && (!IsSlave(heads[k]) ==> r.value[k] == heads[k])
    ensures r.Ok? && masterKey.Some? && HeadObject(heads, masterKey.value).Some? ==>
      && HeadObject(r.value, masterKey.value) == Some(Retagged(heads[masterKey.value], heads[masterKey.value].versionId))
      && forall k :: k in r.value && IsSlave(r.value[k]) ==>
           r.value[k].tags[MasterTag] == IdText(r.value[masterKey.value].versionId)
  {
    match masterKey
    case None => Ok(heads)
    case Some(key) =>
      match HeadObject(heads, key)
      case Some(master) => Ok(RetagAll(heads, master.versionId))
      case None => if HasSlave(heads) then Err(MasterObjectMissing) else Ok(heads)
  }

  /** Running the tag step a second time changes nothing. */
  lemma PropagateMasterIdempotent(heads: map<Key, ObjectVersion>, masterKey: Option<Key>)
    requires PropagateMaster(heads, masterKey).Ok?
    ensures PropagateMaster(PropagateMaster(heads, masterKey).value, masterKey) == PropagateMaster(heads, masterKey)
  {
    var once := PropagateMaster(heads, masterKey).value;
    if masterKey.Some? && HeadObject(heads, masterKey.value).Some? {
      var v := heads[masterKey.value].versionId;
      assert once == RetagAll(heads, v);
      assert HeadObject(once, masterKey.value).Some? && once[masterKey.value].versionId == v;
      forall k | k in once
        ensures Retagged(once[k], v) == once[k]
      {
        if IsSlave(heads[k]) {
          assert once[k].tags == heads[k].tags[MasterTag := IdText(v)];
          assert once[k].tags[MasterTag := IdText(v)] == once[k].tags;
        }
      }
      assert RetagAll(once, v) == once;
    }
  }

  /**
   * A master video and a 360p slave whose `master` tag still names a version
   * of another bucket ("1"): after the tag step the slave names the master's
   * version in this bucket ("3") and the master object is untouched.
   */
  lemma StaleTagScenario()
    ensures var heads := map["video.mp4" := ObjectVersion(3, Some(10), map[]),
                             "video-360p.mp4" := ObjectVersion(4, Some(11), map[MasterTag := "1", "media_type" := "video"])];
      var r := PropagateMaster(heads, Some("video.mp4"));
      && r.Ok?
      && r.value["video-360p.mp4"].tags == map[MasterTag := "3", "media_type" := "video"]
      && r.value["video.mp4"] == heads["video.mp4"]
  {
    var heads := map["video.mp4" := ObjectVersion(3, Some(10), map[]),
                     "video-360p.mp4" := ObjectVersion(4, Some(11), map[MasterTag := "1", "media_type" := "video"])];
    assert IdText(3) == "3";
    assert IsSlave(heads["video-360p.mp4"]) && !IsSlave(heads["video.mp4"]);
    assert heads["video-360p.mp4"].tags[MasterTag := "3"] == map[MasterTag := "3", "media_type" := "video"];
  }
}
