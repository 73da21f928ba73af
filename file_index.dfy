/**
 * The key-value store behind the file list: one record `file:{fileId}` per
 * uploaded file and the list `file_index` of file ids, newest first.
 * `POST /api/register` adds a file and `POST /api/delete` removes one.
 */
module FileIndex {
  import opened Wrappers
  import opened UploadRules

  /** `KVFileMetadata` */
  datatype FileMeta = FileMeta(
    fileId: string,
    filename: string,
    contentType: string,
    size: int,
    b2Key: string,
    uploadDate: string)

  /** What is stored under a `file:` key: metadata, an empty string, or text that is not JSON. */
  datatype StoredRecord = Meta(meta: FileMeta) | Blank | Garbled

  /**
   * What is stored under `file_index`: nothing (or an empty string), text
   * that is not JSON, JSON that is not an array, or the array of ids.
   */
  datatype StoredIndex = Absent | Unparseable | NotAList | Ids(ids: seq<string>)

  const IndexKey: string := "file_index"

  /** Index entries kept by registration. */
  const MaxIndexLength: nat := 1000

  /** `file:${fileId}` */
  function RecordKey(fileId: string): string
  {
    "file:" + fileId
  }

  /** Different ids have different record keys, and no record key is the index key. */
  lemma RecordKeys(a: string, b: string)
    ensures RecordKey(a) == RecordKey(b) ==> a == b
    ensures RecordKey(a) != IndexKey
  {
    assert RecordKey(a)[4] == ':' && IndexKey[4] == '_';
    if RecordKey(a) == RecordKey(b) {
      assert a == RecordKey(a)[5..] && b == RecordKey(b)[5..];
    }
  }

  /** The ids the handlers start from: an absent or unparseable index counts as empty. */
  function IndexIds(index: StoredIndex): (ids: seq<string>)
    ensures index.Ids? ==> ids == index.ids
    ensures !index.Ids? ==> ids == []
  {
    if index.Ids? then index.ids else []
  }

  // ---------------------------------------------------------------- the two index updates

  /** `fileIndex.unshift(fileId)` and, beyond 1000 entries, `fileIndex.slice(0, 1000)`. */
  function Registered(fileId: string, ids: seq<string>): (r: seq<string>)
    ensures |r| == if |ids| < MaxIndexLength then |ids| + 1 else MaxIndexLength
  {
    var grown := [fileId] + ids;
    if |grown| > MaxIndexLength then grown[..MaxIndexLength] else grown
  }

  /**
   * After registration the new id comes first and is followed by the oldest
   * part of the old list, in its order: only entries beyond the thousandth
   * are dropped.
   */
  lemma RegisteredShape(fileId: string, ids: seq<string>)
    ensures var r := Registered(fileId, ids);
            && 1 <= |r| <= MaxIndexLength
            && r[0] == fileId
            && r[1..] == ids[..|r| - 1]
            && (|ids| < MaxIndexLength ==> r == [fileId] + ids)
  {
    var r := Registered(fileId, ids);
    assert ([fileId] + ids)[1..] == ids;
    if |ids| >= MaxIndexLength {
      assert r[1..] == ([fileId] + ids)[1..MaxIndexLength];
    }
  }

  /** Registration does not look for an earlier entry of the same id: re-registering lists it twice. */
  lemma RegisteredKeepsDuplicates(fileId: string, ids: seq<string>)
    requires fileId in ids[..if |ids| < MaxIndexLength - 1 then |ids| else MaxIndexLength - 1]
    ensures multiset(Registered(fileId, ids))[fileId] >= 2
  {
    var r := Registered(fileId, ids);
    RegisteredShape(fileId, ids);
    assert r == [r[0]] + r[1..];
    assert multiset(r) == multiset([fileId]) + multiset(r[1..]);
  }

  /** `fileIndex.filter(id => id !== fileId)` */
  function Without(ids: seq<string>, fileId: string): (r: seq<string>)
    ensures |r| <= |ids|
    ensures fileId !in r
  {
    if ids == [] then []
    else if ids[0] == fileId then Without(ids[1..], fileId)
    else [ids[0]] + Without(ids[1..], fileId)
  }

  /** Filtering distributes over concatenation, so the surviving entries keep their relative order. */
  lemma {:induction false} WithoutAppend(a: seq<string>, b: seq<string>, fileId: string)
    ensures Without(a + b, fileId) == Without(a, fileId) + Without(b, fileId)
  {
    if a == [] {
      assert a + b == b;
    } else {
      assert (a + b)[1..] == a[1..] + b;
      WithoutAppend(a[1..], b, fileId);
    }
  }

  /** Every occurrence of `fileId` goes, and every other id keeps its number of occurrences. */
  lemma {:induction false} WithoutCounts(ids: seq<string>, fileId: string)
    ensures multiset(Without(ids, fileId))[fileId] == 0
    ensures forall x :: x != fileId ==> multiset(Without(ids, fileId))[x] == multiset(ids)[x]
  {
    if ids != [] {
      WithoutCounts(ids[1..], fileId);
      assert ids == [ids[0]] + ids[1..];
    }
  }

  /** A list without `fileId` passes through unchanged, so deleting twice is the same as deleting once. */
  lemma {:induction false} WithoutAbsent(ids: seq<string>, fileId: string)
    requires fileId !in ids
    ensures Without(ids, fileId) == ids
  {
    if ids != [] {
      WithoutAbsent(ids[1..], fileId);
      assert ids == [ids[0]] + ids[1..];
    }
  }

  /** Deleting right after registering a fresh id gives back the old list, when nothing was dropped. */
  lemma DeleteUndoesRegister(fileId: string, ids: seq<string>)
    requires fileId !in ids && |ids| < MaxIndexLength
    ensures Without(Registered(fileId, ids), fileId) == ids
  {
    RegisteredShape(fileId, ids);
    WithoutAppend([fileId], ids, fileId);
    assert Without([fileId], fileId) == [] by {
      assert [fileId][1..] == [];
    }
    WithoutAbsent(ids, fileId);
  }

  // ---------------------------------------------------------------- the store

  /** The JSON body of `POST /api/register`; any field may be missing. */
  datatype RegisterBody = RegisterBody(
    fileId: Option<string>,
    filename: Option<string>,
    contentType: Option<string>,
    size: Option<int>,
    b2Key: Option<string>)

  predicate HasRequiredFields(body: RegisterBody)
  {
    Truthy(body.fileId) && Truthy(body.filename) && Truthy(body.contentType) && Truthy(body.b2Key)
  }

  /** The `metadata` object: the given fields, `size || 0`, and the upload date. */
  function NewMeta(body: RegisterBody, now: string): (m: FileMeta)
    requires HasRequiredFields(body)
    ensures m.fileId == body.fileId.value && m.b2Key == body.b2Key.value
    ensures m.size == if body.size.Some? then body.size.value else 0
  {
    FileMeta(body.fileId.value, body.filename.value, body.contentType.value,
             if body.size.Some? && body.size.value != 0 then body.size.value else 0,
             body.b2Key.value, now)
  }

  class FileStore {
    /** The `file:` records, by key. */
    var records: map<string, StoredRecord>
    /** The value under `file_index`. */
    var index: StoredIndex

    constructor (records: map<string, StoredRecord>, index: StoredIndex)
      ensures this.records == records && this.index == index
    {
      this.records := records;
      this.index := index;
    }

    /** The index holds at most 1000 ids. */
    predicate IndexBounded()
      reads this
    {
      index.Ids? ==> |index.ids| <= MaxIndexLength
    }

    /**
     * `POST /api/register` after authentication, returning the status. The
     * record is written before the index is read, so an index that is not
     * an array fails the request with the record already stored.
     */
    method Register(body: RegisterBody, now: string) returns (status: int)
      modifies this
      ensures status == (if !HasRequiredFields(body) then 400 else if old(index).NotAList? then 500 else 200)
      ensures status == 400 ==> records == old(records) && index == old(index)
      ensures status != 400 ==> records == old(records)[RecordKey(body.fileId.value) := Meta(NewMeta(body, now))]
      ensures status == 500 ==> index == old(index)
      ensures status == 200 ==> index == Ids(Registered(body.fileId.value, IndexIds(old(index))))
      ensures status == 200 ==> IndexBounded() && index.ids[0] == body.fileId.value
    {
      if !HasRequiredFields(body) {
        return 400;
      }
      var fileId := body.fileId.value;
      records := records[RecordKey(fileId) := Meta(NewMeta(body, now))];
      var fileIndex: seq<string> := [];
      if index.Ids? {
        fileIndex := index.ids;
      } else if index.NotAList? {
        return 500;
      }
      fileIndex := [fileId] + fileIndex;
      if |fileIndex| > MaxIndexLength {
        fileIndex := fileIndex[..MaxIndexLength];
      }
      index := Ids(fileIndex);
      RegisteredShape(fileId, IndexIds(old(index)));
      return 200;
    }

    /**
     * `POST /api/delete` after authentication, returning the status and the
     * object key handed to `deleteObject`. `deleteObject` is given as
     * `storageDelete`, from object key to what the call returned or threw;
     * whatever that is, the deletion goes on, so it never decides the outcome.
     */
    method Delete(fileId: Option<string>, storageDelete: string -> Result<bool, string>)
      returns (status: int, storageKey: Option<string>)
      modifies this
      ensures !Truthy(fileId) ==> status == 400
      ensures status == 400 || status == 404 ==> records == old(records) && index == old(index) && storageKey.None?
      ensures Truthy(fileId) ==>
                var key := RecordKey(fileId.value);
                && (status == 404 <==> key !in old(records) || old(records)[key].Blank?)
                && (key in old(records) && old(records)[key].Garbled? ==>
                      status == 500 && records == old(records) && index == old(index) && storageKey.None?)
                && (key in old(records) && old(records)[key].Meta? ==>
                      && storageKey == Some(old(records)[key].meta.b2Key)
                      && records == old(records) - {key}
                      && status == (if old(index).NotAList? then 500 else 200))
      ensures status == 500 ==> index == old(index)
      ensures status == 200 ==> index == Ids(Without(IndexIds(old(index)), fileId.value))
      ensures status == 200 && old(IndexBounded()) ==> IndexBounded()
    {
      if !Truthy(fileId) {
        return 400, None;
      }
      var key := RecordKey(fileId.value);
      if key !in records || records[key].Blank? {
        return 404, None;
      }
      if records[key].Garbled? {
        return 500, None;
      }
      var meta := records[key].meta;
      var ignored := storageDelete(meta.b2Key);
      records := records - {key};
      var indexWritten := RemoveFromIndex(fileId.value);
      status := if indexWritten then 200 else 500;
      storageKey := Some(meta.b2Key);
    }

    /**
     * The index update of `POST /api/delete`: read the list (an absent or
     * unparseable one counts as empty), filter `fileId` out and write it back.
     * A value that is not an array fails, leaving the index as it was.
     */
    method RemoveFromIndex(fileId: string) returns (written: bool)
      modifies this
      ensures records == old(records)
      ensures written <==> !old(index).NotAList?
      ensures written ==> index == Ids(Without(IndexIds(old(index)), fileId))
      ensures !written ==> index == old(index)
      ensures old(IndexBounded()) ==> IndexBounded()
    {
      var fileIndex: seq<string> := [];
      if index.Ids? {
        fileIndex := index.ids;
      } else if index.NotAList? {
        return false;
      }
      fileIndex := Without(fileIndex, fileId);
      index := Ids(fileIndex);
      return true;
    }
  }
}
