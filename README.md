# redis-bucket: a verified model of the chunked object store

redis-bucket is a small HTTP service that stores uploaded files in a
key-value store (Redis). `POST /upload` reads one file, cuts its bytes into
chunks of at most 512 MiB and stores them. A metadata record (`encoding`,
`fieldname`, `mimetype`, `filename` and `length`, the number of chunks) goes
under a fresh identifier `id`. Chunk `i` goes under the key `id|i`.
`GET /file/:id` reads the metadata, builds the keys `id|0 .. id|(length-1)`,
fetches them in one multi-get, drops the absent ones and concatenates the
rest.

This Dafny project models those two handlers.

- `chunking.dfy` (module `Chunking`) is the chunk codec. `Split` is the
  upload loop, proved against the specification function `Chunked`.
  `Concat` is `Buffer.concat`.
- `keys.dfy` (module `Keys`) is the key scheme. `ChunkKey(id, i)` is the
  string `id + "|" + decimal(i)`; lemmas show when two keys can be equal.
- `bucket.dfy` (module `Bucket`) is the store. The class `ObjectStore` holds
  the store as a `map<string, Value>` field. Its method `Upload` issues the
  same `set` calls as the handler, in the same order, and is proved equal to
  the function `Put`. The read handler is the pure function `Retrieve`.
  Lemmas relate `Put` and `Retrieve`: the round trip, silent truncation
  when chunks are missing, which keys a download reads, and independence of
  different identifiers.

In the source the chunk size is the constant `512 * 1024 * 1024`. In the
model it is the parameter `maxChunkSize` (at least 1), with the constant
kept as `Chunking.MaxChunkSize`. The identifier comes from `nanoid()`; here
it is an input. The model requires that it contain no `|`, which holds for
nanoid's alphabet.

`Retrieve` requires `WellFormed(db)`: metadata records sit only under keys
with no `|`. Every upload keeps this (`PutWellFormed`, and `Upload`'s
ensures). It means a chunk key never holds a metadata record. That matters
because the model stores records directly rather than as JSON text, so it
could not say which bytes such a record would add to a download.

Where the design description and the code differ, the model follows the
code:
- The metadata's chunk count is the field `length`.
- The chunks are written one after another, after the metadata.
- There is no upload size limit in this revision.
- There is no wipe operation in this source.
- A missing file, identifier or record makes the handler return without
  sending a reply. The model gives `NotFound`.
- A record with `length` 0 makes the download call the multi-get with no
  key. Redis refuses an MGET without keys, so the call rejects and the
  handler throws. The model gives `Failed`. So a zero-byte upload cannot be
  downloaded, although the design describes an empty read-back (see
  "## Findings").

## Model

| member | source | states |
|---|---|---|
| `Chunking.Split` | src/index.ts:36-46 | The upload loop gives exactly `Chunked(buffer, maxChunkSize)`. The chunks glue back to the buffer, each is 1..maxChunkSize bytes, and all but the last are full. Its loop invariant: the chunks so far glue to `buffer[..offset]` and, while bytes remain, every one is full. |
| `Chunking.SplitStep` | src/index.ts:41-45 | One step of the loop (slice of `min(max, remaining)` bytes, push, advance `offset`) keeps the loop invariant. |
| `Chunking.ChunkedUnique` | src/index.ts:40-46 | Any chunk sequence that glues back to the buffer and follows the size rule equals `Chunked`. So the loop's invariant fixes its result. |
| `Chunking.Chunked` | src/index.ts:40-46 | The specification of the upload loop: never more chunks than bytes, and no chunk exactly when the buffer is empty. Its partners `Split`, `ChunkedJoin` and `ChunkedSizes` give the round trip and the size rule. |
| `Chunking.ChunkedJoin` | src/index.ts:40-46 | Split then concatenate gives back the buffer exactly: no padding, no loss, no reordering. |
| `Chunking.ChunkedSizes` | src/index.ts:40-45 | No chunk is empty or longer than `maxChunkSize`. Every chunk but the last is exactly `maxChunkSize`. |
| `Chunking.ChunkedCountBy` | src/index.ts:40-46 | A length of `q` full chunks plus remainder `r` gives `q` chunks, plus one when `r > 0`. |
| `Chunking.ChunkedCount` | src/index.ts:40-46 | The chunk count is the length over `maxChunkSize`, rounded up (so 0 for an empty buffer). |
| `Chunking.ChunkedExactMultiple` | src/index.ts:40-46 | A buffer of `k * maxChunkSize` bytes gives `k` chunks, all full. |
| `Chunking.ChunkedOnePastMultiple` | src/index.ts:40-46 | A buffer of `k * maxChunkSize + 1` bytes gives `k + 1` chunks, the last one byte long. |
| `Chunking.ChunkedExample` | src/index.ts:40-45 | Chunk size 10 and 25 bytes give chunks of 10, 10 and 5 bytes. |
| `Chunking.SingleChunkUpToMax` | src/index.ts:36-46 | With the 512 MiB constant, a non-empty file up to that size is stored as one chunk equal to the file. |
| `Chunking.Concat` | src/index.ts:83 | `Buffer.concat` is exactly as long as the chunks together. Its partner `ChunkedJoin` shows that it undoes the chunking. |
| `Chunking.ConcatAppend` | src/index.ts:83 | `Buffer.concat` of two sequences of chunks joined end to end is the two results joined. |
| `Keys.Decimal` | src/index.ts:60 | The rendering of the index in the chunk key is a non-empty string of decimal digits. |
| `Keys.DecimalRoundTrip` | src/index.ts:60 | Reading the rendered index back as a decimal number gives the index. |
| `Keys.ChunkKey` | src/index.ts:60 | The chunk key the upload writes, and the download derives the same way: it starts with the identifier followed by the separator character. |
| `Keys.ChunkKeyInjective` | src/index.ts:60 | Two chunk keys of one identifier are equal exactly when their indices are. |
| `Keys.ChunkKeys` | src/index.ts:75-77 | The derived key list has `length` entries, entry `i` is the key of chunk `i`, and no two entries are equal. |
| `Keys.ChunkKeyIsNotId` | src/index.ts:57-60 | No chunk key equals an identifier free of the separator, so chunk writes never overwrite a metadata key. |
| `Keys.ChunkKeysDisjoint` | src/index.ts:57-60 | Chunk keys of two different separator-free identifiers never collide. |
| `Bucket.ObjectStore.Set` | src/index.ts:57 | `client.set` changes the value under its key and nothing else. |
| `Bucket.ObjectStore.Upload` | src/index.ts:29-64 | Without a file: no reply and the store is unchanged. With a file: answers with `id`, and the store becomes `Put(old store, id, file, maxChunkSize)` (metadata, then each chunk in index order). The store stays well formed. |
| `Bucket.Describe` | src/index.ts:48-55 | The stored record copies the file's encoding, field name, media type and file name, and records the chunk count as `length`. |
| `Bucket.StoreChunks` | src/index.ts:59-61 | The chunk writes add exactly the keys of chunks 0..n-1 to the store. |
| `Bucket.Put` | src/index.ts:48-61 | A completed upload adds exactly `id` and the keys of its chunks, and `id` holds the record whose `length` is the chunk count. |
| `Bucket.StoreChunksAt` | src/index.ts:59-61 | After the chunk writes, chunk `i` sits under the key of chunk `i`. |
| `Bucket.StoreChunksFrame` | src/index.ts:59-61 | The chunk writes leave the value of every key other than a chunk key alone. |
| `Bucket.StoreChunksWellFormed` | src/index.ts:59-61 | Chunk writes store no metadata record. |
| `Bucket.PutEffect` | src/index.ts:57-61 | An upload stores chunk `i` under the key of chunk `i`, and the value of every key other than `id` and the chunk keys is unchanged. |
| `Bucket.PutWellFormed` | src/index.ts:57-61 | An upload under a separator-free identifier keeps metadata off keys that contain the separator. |
| `Bucket.ReadKeysMatchWrites` | src/index.ts:52 | The metadata `length` is the number of chunks. The keys the download derives from it, plus `id`, are exactly the keys the upload added. |
| `Bucket.MGet` | src/index.ts:79 | The multi-get fails exactly when it is given no key. Otherwise it answers, per key and in order, the stored value or nothing. |
| `Bucket.KeepPresent` | src/index.ts:80-81 | `filter(Boolean)` keeps no more values than it is given, and every value it keeps is a non-empty chunk. |
| `Bucket.Retrieve` | src/index.ts:66-83 | An empty identifier, an absent value or an empty value give `NotFound`. A non-metadata value gives `Unparsable`. A metadata record with `length` 0 gives `Failed`. Any other metadata record gives `File` with that record. |
| `Bucket.RetrieveFixed` | src/index.ts:75-83 | The corrected download never fails. A record with no chunk gives an empty file with that record. Every other case is as `Retrieve`. |
| `Bucket.RetrieveFrame` | src/index.ts:66-81 | A download depends only on the identifier's key and its chunk keys. |
| `Bucket.KeepPresentSurviving` | src/index.ts:79-81 | When each fetched value is either absent or a non-empty chunk, `filter(Boolean)` keeps exactly the present chunks, in index order. It never drops one that was stored. |
| `Bucket.SurvivingNone` | src/index.ts:79-81 | With no chunk missing, every chunk is kept. |
| `Bucket.SurvivingLength` | src/index.ts:79-83 | Dropping a chunk never lengthens the result, and dropping a non-empty one shortens it. |
| `Bucket.LostChunkAt` | src/index.ts:59-61 | After an upload with the keys of some chunk indices gone, the key of chunk `i` is present exactly when `i` was not lost, and it then holds chunk `i`. |
| `Bucket.RetrieveAfterLoss` | src/index.ts:75-83 | Silent truncation: after an upload of a non-empty file with any set of chunk keys gone, the download still succeeds. Its data is the in-order concatenation of the remaining chunks. After an empty upload the download fails. |
| `Bucket.LossTruncates` | src/index.ts:79-83 | Losing any one stored chunk gives a `File` result, not an error, with fewer bytes than were uploaded. |
| `Bucket.PutThenRetrieve` | src/index.ts:75-91 | Upload then download of the same identifier returns the uploaded bytes, file name and media type for a non-empty file. For an empty file the download fails. |
| `Bucket.EmptyUploadFails` | src/index.ts:40-79 | An empty file is stored as metadata with `length` 0 and no chunk. Its download calls the multi-get with no key and fails. |
| `Bucket.PutThenRetrieveFixed` | src/index.ts:75-83 | With the corrected download, upload then download returns every file exactly, the empty one included. |
| `Bucket.PutKeepsOthers` | src/index.ts:57-61 | An upload leaves the download of every other separator-free identifier unchanged. |

## Findings

| source | as written | input that shows it | evidently intended | confidence | as-written member | corrected member |
|---|---|---|---|---|---|---|
| src/index.ts:75-79 | A record with `length` 0 gives an empty key list, and `client.mGet([])` sends an MGET with no key, which Redis rejects, so the handler throws | a zero-byte upload, then a download of its identifier | the empty file reads back as an empty body | not executed; rests on Redis refusing an MGET without keys | `Bucket.EmptyUploadFails` | `Bucket.PutThenRetrieveFixed` |

The corrected download, `Bucket.RetrieveFixed`, skips the multi-get when
there is no key. The other lemmas keep the download as written, since they
describe the service as it behaves.

## Left out

- Fastify routing, multipart parsing (`req.file()`, `file.toBuffer()`), the
  reply's status, headers and body, the `uptime` route and `server.listen`
  (src/index.ts:18-23, 84-106). These are HTTP plumbing. The model's file is
  a `FilePart` value, and a download's result carries what the reply would
  be built from.
- The Redis client, its connection URL and the dotenv configuration
  (src/index.ts:1-16) are network I/O. The store is a `map` field.
- The chunk writes in `chunks.forEach(async ...)` are not awaited before
  the reply, so they run concurrently and may land late. The model writes
  them one after another and completes them before `Upload` returns. Reads
  racing with unfinished writes are covered only through `RetrieveAfterLoss`
  (a missing chunk key).
- `nanoid()` is randomness from a library. The identifier is a parameter.
  Collisions between identifiers are not modelled.
- `JSON.stringify` and `JSON.parse` of the metadata are not modelled. The
  record is stored as a `Meta` value. The `fields` member of the record is
  not kept.
- Bucket.Retrieve: a non-metadata value under the identifier is modelled as
  a parse failure (`Unparsable`). On some texts `JSON.parse` succeeds and
  yields a value that is not a record; the model does not follow that path.
- `chunk.toString()` and `Buffer.from(s)` are not modelled. They convert
  through UTF-8, which is lossy for bytes that are not valid UTF-8. The
  model stores chunk bytes as they are. `PutThenRetrieve` therefore holds
  for the model's byte-exact store; in the service it holds only for valid
  UTF-8 content.
- Bucket.Retrieve: a rejected multi-get is the outcome `Failed`. The error
  reply the web framework then sends for the thrown exception is not
  modelled.
- Bucket.Retrieve: requires `WellFormed(db)`. Stores that no upload with a
  `|`-free identifier can produce, holding a metadata record under a chunk
  key, are outside the model.
- `build/index.js` is the compiled form of the same program and is not
  modelled separately.
- A global wipe (the design's `DELETE /all`) does not appear in this source
  and is not modelled.
