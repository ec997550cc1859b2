# S3 read-by-chunks re-encoder, modelled in Dafny

The repository is an AWS Lambda handler. When an object is written, the handler
streams the object through a seekable, read-only file object (`S3File`) built on
HTTP range requests. It reads the object in 50 MiB chunks and uploads each chunk
as one part of a multipart upload. The target key is the source key with its
first path segment replaced by `utf-8`. Finally it completes the upload with the
list of parts.

This project models the logic of that handler that does not depend on the
network:

- `range_reader.dfy` (module `RangeReader`): the `S3File` cursor. The remote
  object is an immutable `seq<bv8>`, so `size` is its length. `seek` and `read`
  are pure functions. Each returns the stream after the call, together with what
  the call returned or raised. `read` also returns the `Range` header it sends,
  and `Fetch` is the store's answer to that header.
- `key_path.dfy` (module `KeyPath`): Python's `str.split("/")` and `"/".join`,
  and the target-key expression built from them.
- `handler.dfy` (module `Handler`): the part-planning loop of `lambda_handler`.
  Its chunk arithmetic and part numbering are modelled as written. Two things
  are assumed to work: the source-encoding lookup, and transcoding, which is
  taken as the identity (see "## Left out"). The store calls are function
  parameters: the object's bytes, the upload id, and the entity tag returned
  for a part.
- `wrappers.dfy` (module `Wrappers`): the `Result` type for calls that raise.

What the loop really does, as proved here:

- It makes `size / chunk_size + 1` reads, and each one asks for `chunk_size`
  bytes. The branch meant to ask for the leftover compares against
  `total_parts + 2`, which lies outside the loop range, so it never fires.
- The short final part exists only because `read` falls back to reading to the
  end when `position + n >= size`.
- When `size` is a multiple of `chunk_size` (including an empty object), the
  last read starts at `size` and uploads an empty part (with `Fetch`'s
  convention for a start at the end, see "## Left out").
- The bodies concatenate to exactly the object. The `Parts` list is numbered
  `1..N` in order, with one entry per upload.

Two behaviours of the code worth knowing, both kept as written:

- The cursor is never clamped, so it can become negative.
- The part list has the extra empty part described above.

## Model

| member | source | states |
|---|---|---|
| RangeReader.Open | handler.py:9-21 | a new stream reads over the object's bytes, starts with its cursor at 0 (`S3File.Tell`), and its size (`S3File.Size`) is the object's length |
| RangeReader.Fetch | handler.py:54 | the ranged GET answers exactly when the header has no negative position and no inverted span. The bytes it returns are consecutive bytes of the object, starting at the first requested position. An open range returns everything up to the end. A span ending inside the object returns `last - first + 1` bytes |
| RangeReader.Seek | handler.py:20-36 | SET, CUR and END set the cursor to `offset`, `position + offset` and `size + offset`, with no clamping, and return the new cursor, which is what `tell` (`S3File.Tell`) then reports. Any other whence raises `InvalidWhence` and leaves the stream unchanged. The object is never modified |
| RangeReader.SeekModesAgree | handler.py:23-29 | the three modes reach the same absolute position, and a relative seek by `d` is undone by a relative seek by `-d` |
| RangeReader.Read | handler.py:41-54 | `read()`, and any `read(n)` with `position + n >= size`, sends `bytes=position-`, leaves the cursor at `size` and returns the rest of the object. Any other `read(n)` sends `bytes=position-(position+n-1)`, advances the cursor by `n` and returns exactly `content[position..position+n]`. The store can answer if and only if the cursor is non-negative and either `n >= 1` or the read-to-end path is taken. So `read(0)` before the end sends an inverted range |
| RangeReader.ReadPastEndIsReadAll | handler.py:46-49 | a bounded read that reaches the end is identical to `read()`: same request, same bytes, same cursor afterwards |
| RangeReader.ReadThenReadAll | handler.py:41-54 | from an in-range cursor, reading `n` bytes and then the rest returns the same bytes as one `read()`, and ends at the same cursor |
| KeyPath.JoinSplit | handler.py:69 | joining the segments of a split string with the same separator gives the string back |
| KeyPath.SplitJoin | handler.py:69 | splitting a join of non-empty lists of separator-free segments gives the segments back |
| KeyPath.SplitSegmentsSeparatorFree | handler.py:69 | no segment produced by `split` contains the separator |
| KeyPath.TargetKeyReplacesFirstSegment | handler.py:69 | `TargetKey`: a key without `/` maps to exactly `utf-8`. Otherwise the target is `utf-8` followed by the source key from its first `/` on |
| KeyPath.TargetKeySegments | handler.py:69 | the segments of `TargetKey(k)` are `utf-8` followed by every segment of the source key after the first, verbatim and in order |
| Handler.ChunkToReadIsAlwaysFull | handler.py:87-90 | `ChunkToRead`: for every `n` in `range(1, total_parts + 2)`, the size asked of `read` is `chunk_size`, never the leftover |
| Handler.ChunkStartIsProduct | handler.py:82 | the recursively defined chunk boundary `i` is `i * chunk_size` |
| Handler.ChunkBounds | handler.py:82 | with `total_parts, leftover = divmod(size, chunk_size)`, chunks `0..total_parts-1` are full and abut each other. Chunk `total_parts` ends at `size` and holds `leftover` bytes |
| Handler.ReadChunk | handler.py:87-91 | a `read(chunk_size)` at boundary `i` returns chunk `i` and sends a span or an open range according to whether the read stops short of the end. It moves the cursor to the next boundary, or to `size` for the last chunk |
| Handler.Iterate | handler.py:87-105 | one iteration keeps the loop invariant: the cursor is at the next chunk boundary, every upload so far is the chunk at its index, the `Parts` list matches the uploads, and the bodies so far are the object's prefix up to the cursor |
| Handler.UploadParts | handler.py:82-105 | from a fresh stream, the loop makes `size / chunk_size + 1` uploads. Upload `i` has part number `i + 1`, asks for `chunk_size`, sends the range for chunk `i`, and carries `content[i*chunk_size .. min((i+1)*chunk_size, size)]`. The bodies concatenate to the whole object, and `Parts[i]` is `{ETag of upload i, i + 1}` |
| Handler.PartSizes | handler.py:82-91 | every part but the last has exactly `chunk_size` bytes, and the last has `size % chunk_size` bytes. The last part is empty if and only if `size` is a multiple of `chunk_size` |
| Handler.ManifestIndex | handler.py:85-105 | `Manifest`: the `Parts` list has one entry per upload, in upload order, each carrying that upload's part number and entity tag |
| Handler.ProcessRecord | handler.py:67-112 | one record completes an upload to the same bucket under the derived target key, using the upload id created for that key. The parts are numbered `1..size/chunk_size+1` in order, each with the entity tag of its own `upload_part` call. Upload `i` carries chunk `i` of the source object, and the uploaded bodies concatenate to that object |
| Handler.LambdaHandler | handler.py:65-112 | the records are processed in order, one completion per record, each to its record's bucket and derived key, with the upload id created for that key (`Completed`). Its `Parts` list is numbered `1..size/chunk_size+1` in order, and entry `j` carries the entity tag that `upload_part` returned for part `j + 1` with body `content[j*chunk_size .. min((j+1)*chunk_size, size)]` of that record's object |

## Left out

- Network I/O of every kind. This covers boto3 client construction, `create_multipart_upload`, `upload_part`, `complete_multipart_upload` and the ranged `get`. The store's answers are function parameters (object bytes, upload id, entity tag). The ranged GET is the slice `Fetch`. Which calls happen and in what order is not modelled.
- Fetch: the store's reply to a malformed header is not modelled. A negative start, which `read` sends after a seek below 0, and an inverted span, which `read(0)` sends, are reported as `InvalidRange`. A start at or past the end returns an empty body, although a real store may refuse such a range.
- Character decoding and UTF-8 re-encoding of each chunk, because they are codec library behaviour. A part's body is the bytes read.
- The source-encoding lookup at handler.py:92 calls `os.environ(...)`, which is not callable, so as written it raises `TypeError`. That happens right after the first ranged GET (handler.py:91). The handler therefore never reaches `upload_part` (handler.py:95) or `complete_multipart_upload` (handler.py:107), and it leaves the upload created at handler.py:72 open.
- Handler.Iterate, Handler.UploadParts, Handler.ProcessRecord and Handler.LambdaHandler model the handler as if that lookup worked and transcoding were the identity. They do not model the `TypeError` path or the upload it leaves open.
- Handler.LambdaHandler: the store is fixed for the whole batch. `objectAt` and `createUpload` are functions chosen before the first record, so a record whose key was written by an earlier record's `complete_multipart_upload` (handler.py:107-112) is modelled as reading the object as it was before the batch, not the one just written (handler.py:78-91). Two records with the same target key get the same upload id, whereas each `create_multipart_upload` call (handler.py:72) issues a new one. Modelling this would need a store that the loop updates after each completion.
- `unquote_plus` on the incoming key, because it is a library call. `Record.key` is the decoded key.
- Logging, `__repr__`, `seekable`, `readable`, and the unused `lines` parameter of `read`, because they do not affect results.
- The `__main__` block, because it only reads environment variables and repeats the `os.environ(...)` call defect.
- The event record layout beyond bucket name and key.
- Handler.UploadParts: takes any positive `chunk_size`. The handler itself always passes the constant 52428800 (`Handler.ChunkSize`). A zero or negative chunk size, which would make `divmod` raise or floor, is not modelled.
