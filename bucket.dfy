/**
 * The object store of the two route handlers: `POST /upload` writes one
 * metadata record and the chunks of the uploaded file into a key-value
 * store, and `GET /file/:id` reads them back and reassembles the file.
 */
module Bucket {
  import opened Chunking
  import opened Keys

  datatype Option<T> = None | Some(value: T)

  /** The one file part of a multipart upload, with its bytes read into memory. */
  datatype FilePart = FilePart(
    encoding: string,
    fieldname: string,
    mimetype: string,
    filename: string,
    content: seq<byte>
  )

  /** The metadata record stored under the identifier; `length` counts the chunks. */
  datatype FileInfo = FileInfo(
    encoding: string,
    fieldname: string,
    length: nat,
    mimetype: string,
    filename: string
  )

  /** A value of the key-value store: a metadata record, or the bytes of a chunk. */
  datatype Value = Meta(info: FileInfo) | Blob(bytes: seq<byte>)

  /** The key-value store: string keys to values. */
  type Db = map<string, Value>

  /** What a download gives. */
  datatype Download =
    | NotFound                                    // the handler returns without a body
    | Unparsable                                  // `JSON.parse` rejects the value under the identifier
    | Failed                                      // `client.mGet` rejects, so the handler throws
    | File(info: FileInfo, data: seq<byte>)       // the metadata and the reassembled bytes

  /**
   * Metadata records only ever sit under keys without a `|`. Every upload
   * with a separator-free identifier keeps this, so chunk keys, which
   * all contain a `|`, hold chunk bytes whenever they hold anything.
   */
  ghost predicate WellFormed(db: Db)
  {
    forall k :: k in db && db[k].Meta? ==> '|' !in k
  }

  /** The `infos` record the upload handler builds for a file cut into `length` chunks. */
  function Describe(f: FilePart, length: nat): (info: FileInfo)
    ensures info.length == length
    ensures info.encoding == f.encoding && info.fieldname == f.fieldname
    ensures info.mimetype == f.mimetype && info.filename == f.filename
  {
    FileInfo(f.encoding, f.fieldname, length, f.mimetype, f.filename)
  }

  /** The keys `id|0`, ..., `id|(n-1)` as a set. */
  function ChunkKeySet(id: string, n: nat): set<string>
  {
    set i | 0 <= i < n :: ChunkKey(id, i)
  }

  // ---------------------------------------------------------------------
  // Write side

  /** The store after writing chunk `i` under `id|i`, for each `i` in turn. */
  function StoreChunks(db: Db, id: string, chunks: seq<seq<byte>>): (r: Db)
    ensures r.Keys == db.Keys + ChunkKeySet(id, |chunks|)
    decreases |chunks|
  {
    if |chunks| == 0 then db
    else
      var n := |chunks| - 1;
      assert ChunkKeySet(id, n + 1) == ChunkKeySet(id, n) + {ChunkKey(id, n)};
      StoreChunks(db, id, chunks[..n])[ChunkKey(id, n) := Blob(chunks[n])]
  }

  /** The store after a completed upload of `f` under `id`: metadata first, then the chunks. */
  function Put(db: Db, id: string, f: FilePart, maxChunkSize: nat): (r: Db)
    requires maxChunkSize >= 1
    ensures r.Keys == db.Keys + {id} + ChunkKeySet(id, |Chunked(f.content, maxChunkSize)|)
    ensures r[id] == Meta(Describe(f, |Chunked(f.content, maxChunkSize)|))
  {
    var chunks := Chunked(f.content, maxChunkSize);
    assert id !in ChunkKeySet(id, |chunks|);
    StoreChunksFrame(db[id := Meta(Describe(f, |chunks|))], id, chunks);
    StoreChunks(db[id := Meta(Describe(f, |chunks|))], id, chunks)
  }

  /** The key-value store with the two handlers that use it. */
  class ObjectStore {
    var db: Db

    ghost predicate Valid()
      reads this
    {
      WellFormed(db)
    }

    constructor ()
      ensures Valid() && db == map[]
    {
      db := map[];
    }

    /** `client.set(key, value)`. */
    method Set(key: string, value: Value)
      modifies this
      ensures db == old(db)[key := value]
    {
      db := db[key := value];
    }

    /**
     * The `POST /upload` handler. Without a file it writes nothing;
     * otherwise it splits the bytes, stores the metadata under `id` and
     * chunk `i` under `id|i`, and answers with `id`.
     */
    method Upload(file: Option<FilePart>, id: string, maxChunkSize: nat) returns (r: Option<string>)
      requires Valid() && maxChunkSize >= 1 && '|' !in id
      modifies this
      ensures Valid()
      ensures file.None? ==> r == None && db == old(db)
      ensures file.Some? ==> r == Some(id) && db == Put(old(db), id, file.value, maxChunkSize)
    {
      if file.None? {
        return None;
      }
      var f := file.value;
      var buffer := f.content;
      var chunks := Split(buffer, maxChunkSize);
      var infos := Describe(f, |chunks|);
      Set(id, Meta(infos));
      var index := 0;
      while index < |chunks|
        invariant 0 <= index <= |chunks|
        invariant db == StoreChunks(old(db)[id := Meta(infos)], id, chunks[..index])
      {
        Set(ChunkKey(id, index), Blob(chunks[index]));
        assert chunks[..index + 1][..index] == chunks[..index];
        index := index + 1;
      }
      assert chunks[..index] == chunks;
      PutWellFormed(old(db), id, f, maxChunkSize);
      return Some(id);
    }
  }

  // ---------------------------------------------------------------------
  // Read side

  /**
   * `client.mGet(keys)`: the value under each key, or nothing where the key
   * is absent. Redis refuses an MGET without any key, so over an empty key
   * list the call fails (`None`).
   */
  function MGet(db: Db, keys: seq<string>): (r: Option<seq<Option<Value>>>)
    ensures r.None? <==> keys == []
    ensures r.Some? ==> |r.value| == |keys|
    ensures r.Some? ==> forall i :: 0 <= i < |keys| ==>
              r.value[i] == if keys[i] in db then Some(db[keys[i]]) else None
  {
    if keys == [] then None
    else Some(seq(|keys|, i requires 0 <= i < |keys| => if keys[i] in db then Some(db[keys[i]]) else None))
  }

  /** No value fetched is a metadata record. */
  ghost predicate NoMeta(vals: seq<Option<Value>>)
  {
    forall i :: 0 <= i < |vals| && vals[i].Some? ==> vals[i].value.Blob?
  }

  /**
   * `.filter((c) => Boolean(c)).map((s) => Buffer.from(s!))`: absent
   * values and empty values are both falsy, so both are dropped; the rest
   * keep their order.
   */
  function KeepPresent(vals: seq<Option<Value>>): (chunks: seq<seq<byte>>)
    requires NoMeta(vals)
    ensures |chunks| <= |vals|
    ensures forall i :: 0 <= i < |chunks| ==> chunks[i] != []
    decreases |vals|
  {
    if |vals| == 0 then []
    else
      var n := |vals| - 1;
      assert NoMeta(vals[..n]) by {
        assert forall i :: 0 <= i < n ==> vals[..n][i] == vals[i];
      }
      var front := KeepPresent(vals[..n]);
      match vals[n]
      case None => front
      case Some(v) => if v.bytes == [] then front else front + [v.bytes]
  }

  /**
   * The `GET /file/:id` handler: no result for an empty identifier or an
   * absent or empty value; a failure when the record has no chunk, since
   * the multi-get then has no key; otherwise the stored metadata and the
   * concatenation of whatever chunks `id|0 .. id|(length-1)` are present.
   */
  function Retrieve(db: Db, id: string): (r: Download)
    requires WellFormed(db)
    ensures id == "" || id !in db ==> r == NotFound
    ensures r.Unparsable? <==> id != "" && id in db && db[id].Blob? && db[id].bytes != []
    ensures r.Failed? <==> id != "" && id in db && db[id].Meta? && db[id].info.length == 0
    ensures r.File? <==> id != "" && id in db && db[id].Meta? && db[id].info.length > 0
    ensures r.File? ==> r.info == db[id].info
  {
    if id == "" || id !in db then NotFound
    else
      match db[id]
      case Blob(text) => if text == [] then NotFound else Unparsable
      case Meta(info) =>
        match MGet(db, ChunkKeys(id, info.length))
        case None => Failed
        case Some(vals) =>
          assert NoMeta(vals) by {
            forall i | 0 <= i < |vals| && vals[i].Some?
              ensures vals[i].value.Blob?
            {
              ChunkKeyHasSeparator(id, i);
            }
          }
          File(info, Concat(KeepPresent(vals)))
  }

  /**
   * The download as evidently intended: a record with no chunk gives an
   * empty file rather than a multi-get over no keys; every other case is
   * as `Retrieve`.
   */
  function RetrieveFixed(db: Db, id: string): (r: Download)
    requires WellFormed(db)
    ensures !r.Failed?
    ensures !Retrieve(db, id).Failed? ==> r == Retrieve(db, id)
    ensures Retrieve(db, id).Failed? ==> r == File(db[id].info, [])
  {
    if id != "" && id in db && db[id].Meta? && db[id].info.length == 0 then File(db[id].info, [])
    else Retrieve(db, id)
  }

  // ---------------------------------------------------------------------
  // What an upload writes

  /** Chunk `i` sits under `id|i` once the chunks are written. */
  lemma {:induction false} StoreChunksAt(db: Db, id: string, chunks: seq<seq<byte>>, i: nat)
    requires i < |chunks|
    ensures ChunkKey(id, i) in StoreChunks(db, id, chunks)
    ensures StoreChunks(db, id, chunks)[ChunkKey(id, i)] == Blob(chunks[i])
    decreases |chunks|
  {
    var n := |chunks| - 1;
    if i < n {
      StoreChunksAt(db, id, chunks[..n], i);
      assert chunks[..n][i] == chunks[i];
      ChunkKeyInjective(id, i, n);
    }
  }

  /** Writing the chunks changes no key other than theirs. */
  lemma {:induction false} StoreChunksFrame(db: Db, id: string, chunks: seq<seq<byte>>)
    ensures forall k :: k in db && k !in ChunkKeySet(id, |chunks|) ==> StoreChunks(db, id, chunks)[k] == db[k]
    decreases |chunks|
  {
    if |chunks| > 0 {
      var n := |chunks| - 1;
      StoreChunksFrame(db, id, chunks[..n]);
      assert ChunkKeySet(id, n + 1) == ChunkKeySet(id, n) + {ChunkKey(id, n)};
    }
  }

  /** Writing chunks stores no metadata record. */
  lemma {:induction false} StoreChunksWellFormed(db: Db, id: string, chunks: seq<seq<byte>>)
    requires WellFormed(db)
    ensures WellFormed(StoreChunks(db, id, chunks))
    decreases |chunks|
  {
    if |chunks| > 0 {
      StoreChunksWellFormed(db, id, chunks[..|chunks| - 1]);
    }
  }

  /** An upload under a separator-free identifier keeps the store well formed. */
  lemma PutWellFormed(db: Db, id: string, f: FilePart, maxChunkSize: nat)
    requires WellFormed(db) && maxChunkSize >= 1 && '|' !in id
    ensures WellFormed(Put(db, id, f, maxChunkSize))
  {
    var chunks := Chunked(f.content, maxChunkSize);
    StoreChunksWellFormed(db[id := Meta(Describe(f, |chunks|))], id, chunks);
  }

  /**
   * An upload writes chunk `i` under `id|i`, and no key other than `id`
   * and the chunk keys changes.
   */
  lemma PutEffect(db: Db, id: string, f: FilePart, maxChunkSize: nat)
    requires maxChunkSize >= 1
    ensures forall i :: 0 <= i < |Chunked(f.content, maxChunkSize)| ==>
              && ChunkKey(id, i) in Put(db, id, f, maxChunkSize)
              && Put(db, id, f, maxChunkSize)[ChunkKey(id, i)] == Blob(Chunked(f.content, maxChunkSize)[i])
    ensures forall k :: k in db && k != id && k !in ChunkKeySet(id, |Chunked(f.content, maxChunkSize)|) ==>
              Put(db, id, f, maxChunkSize)[k] == db[k]
  {
    var chunks := Chunked(f.content, maxChunkSize);
    var base := db[id := Meta(Describe(f, |chunks|))];
    StoreChunksFrame(base, id, chunks);
    assert id !in ChunkKeySet(id, |chunks|);
    forall i | 0 <= i < |chunks|
      ensures ChunkKey(id, i) in Put(db, id, f, maxChunkSize)
      ensures Put(db, id, f, maxChunkSize)[ChunkKey(id, i)] == Blob(chunks[i])
    {
      StoreChunksAt(base, id, chunks, i);
    }
  }

  /**
   * The keys the download derives from the stored metadata are exactly the
   * chunk keys the upload wrote: the upload adds `id` and those keys only.
   */
  lemma ReadKeysMatchWrites(db: Db, id: string, f: FilePart, maxChunkSize: nat)
    requires maxChunkSize >= 1
    ensures id in Put(db, id, f, maxChunkSize) && Put(db, id, f, maxChunkSize)[id].Meta?
    ensures Put(db, id, f, maxChunkSize)[id].info.length == |Chunked(f.content, maxChunkSize)|
    ensures Put(db, id, f, maxChunkSize).Keys ==
              db.Keys + {id} + (set k | k in ChunkKeys(id, Put(db, id, f, maxChunkSize)[id].info.length))
  {
    PutEffect(db, id, f, maxChunkSize);
    var n := |Chunked(f.content, maxChunkSize)|;
    var keys := ChunkKeys(id, n);
    assert (set k | k in keys) == ChunkKeySet(id, n) by {
      forall k | k in keys ensures k in ChunkKeySet(id, n) {
        var i :| 0 <= i < n && keys[i] == k;
      }
      forall k | k in ChunkKeySet(id, n) ensures k in keys {
        var i :| 0 <= i < n && ChunkKey(id, i) == k;
        assert keys[i] == k;
      }
    }
  }

  // ---------------------------------------------------------------------
  // What a download reads

  /** `a` and `b` agree on key `k`. */
  ghost predicate Agree(a: Db, b: Db, k: string)
  {
    (k in a <==> k in b) && (k in a ==> a[k] == b[k])
  }

  /** A download reads nothing but the identifier's key and its chunk keys. */
  lemma RetrieveFrame(a: Db, b: Db, id: string)
    requires WellFormed(a) && WellFormed(b)
    requires Agree(a, b, id)
    requires forall i: nat :: Agree(a, b, ChunkKey(id, i))
    ensures Retrieve(a, id) == Retrieve(b, id)
  {
    if id != "" && id in a && a[id].Meta? {
      var keys := ChunkKeys(id, a[id].info.length);
      if keys != [] {
        assert MGet(a, keys).value == MGet(b, keys).value;
      }
    }
  }

  /** The chunks whose index is not in `lost`, in order. */
  function Surviving(chunks: seq<seq<byte>>, lost: set<nat>): seq<seq<byte>>
    decreases |chunks|
  {
    if |chunks| == 0 then []
    else
      var n: nat := |chunks| - 1;
      Surviving(chunks[..n], lost) + (if n in lost then [] else [chunks[n]])
  }

  /** When nothing is lost every chunk survives. */
  lemma {:induction false} SurvivingNone(chunks: seq<seq<byte>>, lost: set<nat>)
    requires forall i: nat :: i < |chunks| ==> i !in lost
    ensures Surviving(chunks, lost) == chunks
    decreases |chunks|
  {
    if |chunks| > 0 {
      var n := |chunks| - 1;
      SurvivingNone(chunks[..n], lost);
      assert chunks[..n] + [chunks[n]] == chunks;
    }
  }

  /** Losing a non-empty chunk makes the concatenation strictly shorter. */
  lemma {:induction false} SurvivingLength(chunks: seq<seq<byte>>, lost: set<nat>, j: nat)
    requires forall i :: 0 <= i < |chunks| ==> chunks[i] != []
    ensures |Concat(Surviving(chunks, lost))| <= |Concat(chunks)|
    ensures j in lost && j < |chunks| ==> |Concat(Surviving(chunks, lost))| < |Concat(chunks)|
    decreases |chunks|
  {
    if |chunks| > 0 {
      var n: nat := |chunks| - 1;
      SurvivingLength(chunks[..n], lost, j);
      var tail := if n in lost then [] else [chunks[n]];
      ConcatAppend(Surviving(chunks[..n], lost), tail);
      if n !in lost {
        ConcatSingle(chunks[n]);
      }
    }
  }

  /**
   * Where each fetched value is absent exactly for the lost indices and
   * otherwise a non-empty chunk, the filter keeps exactly the surviving
   * chunks: it never drops a chunk that is there.
   */
  lemma {:induction false} KeepPresentSurviving(vals: seq<Option<Value>>, chunks: seq<seq<byte>>, lost: set<nat>)
    requires |vals| == |chunks|
    requires forall i :: 0 <= i < |chunks| ==> chunks[i] != []
    requires forall i: nat :: i < |vals| ==> vals[i] == if i in lost then None else Some(Blob(chunks[i]))
    ensures NoMeta(vals)
    ensures KeepPresent(vals) == Surviving(chunks, lost)
    decreases |vals|
  {
    if |vals| > 0 {
      var n: nat := |vals| - 1;
      KeepPresentSurviving(vals[..n], chunks[..n], lost);
    }
  }

  /** The chunk keys of the indices in `lost`. */
  function LostKeys(id: string, lost: set<nat>): set<string>
  {
    set j | j in lost :: ChunkKey(id, j)
  }

  /**
   * Silent truncation: after an upload of a non-empty file, with the chunk
   * keys of the indices in `lost` gone, a download still succeeds and gives
   * the concatenation of the remaining chunks only. After an upload of an
   * empty file the download fails.
   */
  lemma RetrieveAfterLoss(db: Db, id: string, f: FilePart, maxChunkSize: nat, lost: set<nat>)
    requires WellFormed(db) && maxChunkSize >= 1 && id != "" && '|' !in id
    ensures WellFormed(Put(db, id, f, maxChunkSize) - LostKeys(id, lost))
    ensures Retrieve(Put(db, id, f, maxChunkSize) - LostKeys(id, lost), id) ==
              if f.content == [] then Failed
              else File(Describe(f, |Chunked(f.content, maxChunkSize)|),
                        Concat(Surviving(Chunked(f.content, maxChunkSize), lost)))
  {
    var chunks := Chunked(f.content, maxChunkSize);
    var n := |chunks|;
    var t := Put(db, id, f, maxChunkSize) - LostKeys(id, lost);
    PutWellFormed(db, id, f, maxChunkSize);
    assert id in t && t[id] == Meta(Describe(f, n)) by {
      assert id !in LostKeys(id, lost);
    }
    if n > 0 {
      var vals := MGet(t, ChunkKeys(id, n)).value;
      forall i: nat | i < n
        ensures vals[i] == if i in lost then None else Some(Blob(chunks[i]))
      {
        LostChunkAt(db, id, f, maxChunkSize, lost, i);
      }
      ChunkedSizes(f.content, maxChunkSize);
      KeepPresentSurviving(vals, chunks, lost);
    }
  }

  /** After an upload with the keys of `lost` gone, chunk `i` is there exactly when `i` is not lost. */
  lemma LostChunkAt(db: Db, id: string, f: FilePart, maxChunkSize: nat, lost: set<nat>, i: nat)
    requires maxChunkSize >= 1 && i < |Chunked(f.content, maxChunkSize)|
    ensures ChunkKey(id, i) in Put(db, id, f, maxChunkSize) - LostKeys(id, lost) <==> i !in lost
    ensures i !in lost ==>
              (Put(db, id, f, maxChunkSize) - LostKeys(id, lost))[ChunkKey(id, i)] ==
              Blob(Chunked(f.content, maxChunkSize)[i])
  {
    PutEffect(db, id, f, maxChunkSize);
    forall j: nat | j in lost
      ensures ChunkKey(id, j) == ChunkKey(id, i) ==> j == i
    {
      ChunkKeyInjective(id, i, j);
    }
  }

  /**
   * Upload then download of the same identifier gives back the bytes, the
   * file name and the media type that were uploaded, unless the file was
   * empty, in which case the download fails.
   */
  lemma PutThenRetrieve(db: Db, id: string, f: FilePart, maxChunkSize: nat)
    requires WellFormed(db) && maxChunkSize >= 1 && id != "" && '|' !in id
    ensures WellFormed(Put(db, id, f, maxChunkSize))
    ensures Retrieve(Put(db, id, f, maxChunkSize), id) ==
              if f.content == [] then Failed
              else File(Describe(f, |Chunked(f.content, maxChunkSize)|), f.content)
    ensures f.content != [] ==> Retrieve(Put(db, id, f, maxChunkSize), id).info.filename == f.filename
    ensures f.content != [] ==> Retrieve(Put(db, id, f, maxChunkSize), id).info.mimetype == f.mimetype
  {
    RetrieveAfterLoss(db, id, f, maxChunkSize, {});
    assert LostKeys(id, {}) == {};
    assert Put(db, id, f, maxChunkSize) - {} == Put(db, id, f, maxChunkSize);
    SurvivingNone(Chunked(f.content, maxChunkSize), {});
    ChunkedJoin(f.content, maxChunkSize);
  }

  /**
   * A download after losing chunk `j` of an upload reports no error but
   * gives fewer bytes than were uploaded.
   */
  lemma LossTruncates(db: Db, id: string, f: FilePart, maxChunkSize: nat, j: nat)
    requires WellFormed(db) && maxChunkSize >= 1 && id != "" && '|' !in id
    requires j < |Chunked(f.content, maxChunkSize)|
    ensures WellFormed(Put(db, id, f, maxChunkSize) - {ChunkKey(id, j)})
    ensures Retrieve(Put(db, id, f, maxChunkSize) - {ChunkKey(id, j)}, id).File?
    ensures |Retrieve(Put(db, id, f, maxChunkSize) - {ChunkKey(id, j)}, id).data| < |f.content|
  {
    assert LostKeys(id, {j}) == {ChunkKey(id, j)};
    RetrieveAfterLoss(db, id, f, maxChunkSize, {j});
    ChunkedSizes(f.content, maxChunkSize);
    SurvivingLength(Chunked(f.content, maxChunkSize), {j}, j);
    ChunkedJoin(f.content, maxChunkSize);
  }

  /**
   * An empty file is stored as metadata with `length` 0 and no chunk. Its
   * download then asks the multi-get for no key at all and fails, so an
   * empty file cannot be read back.
   */
  lemma EmptyUploadFails(db: Db, id: string, f: FilePart, maxChunkSize: nat)
    requires WellFormed(db) && maxChunkSize >= 1 && id != "" && '|' !in id
    requires f.content == []
    ensures Put(db, id, f, maxChunkSize) == db[id := Meta(Describe(f, 0))]
    ensures WellFormed(Put(db, id, f, maxChunkSize))
    ensures Retrieve(Put(db, id, f, maxChunkSize), id) == Failed
  {
    PutThenRetrieve(db, id, f, maxChunkSize);
  }

  /**
   * With the corrected download, upload then download gives back every
   * file exactly, the empty one included.
   */
  lemma PutThenRetrieveFixed(db: Db, id: string, f: FilePart, maxChunkSize: nat)
    requires WellFormed(db) && maxChunkSize >= 1 && id != "" && '|' !in id
    ensures WellFormed(Put(db, id, f, maxChunkSize))
    ensures RetrieveFixed(Put(db, id, f, maxChunkSize), id) ==
              File(Describe(f, |Chunked(f.content, maxChunkSize)|), f.content)
  {
    PutThenRetrieve(db, id, f, maxChunkSize);
    if f.content == [] {
      EmptyUploadFails(db, id, f, maxChunkSize);
    }
  }

  /**
   * Uploads under different separator-free identifiers are independent:
   * an upload leaves every other object's download as it was.
   */
  lemma PutKeepsOthers(db: Db, id: string, f: FilePart, maxChunkSize: nat, other: string)
    requires WellFormed(db) && maxChunkSize >= 1 && '|' !in id && '|' !in other && other != id
    ensures WellFormed(Put(db, id, f, maxChunkSize))
    ensures Retrieve(Put(db, id, f, maxChunkSize), other) == Retrieve(db, other)
  {
    var p := Put(db, id, f, maxChunkSize);
    var n := |Chunked(f.content, maxChunkSize)|;
    PutWellFormed(db, id, f, maxChunkSize);
    PutEffect(db, id, f, maxChunkSize);
    assert Agree(db, p, other) by {
      forall j | 0 <= j < n
        ensures ChunkKey(id, j) != other
      {
        ChunkKeyIsNotId(id, j, other);
      }
    }
    forall i: nat
      ensures Agree(db, p, ChunkKey(other, i))
    {
      ChunkKeyIsNotId(other, i, id);
      forall j | 0 <= j < n
        ensures ChunkKey(id, j) != ChunkKey(other, i)
      {
        ChunkKeysDisjoint(id, j, other, i);
      }
    }
    RetrieveFrame(db, p, other);
  }
}
