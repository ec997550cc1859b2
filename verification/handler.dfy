/**
 The per-record pipeline of `lambda_handler`: derive the target key, start a
 multipart upload, read the source object through an `S3File` one chunk per
 part, upload each chunk, and complete the upload with the list of parts.
 The object store is represented by the functions passed in: the object's
 bytes, the upload id it issues and the entity tag it returns for a part.
 */
module Handler {
  import opened Wrappers
  import opened RangeReader
  import KeyPath

  /** The part size the handler reads with: 50 MiB. */
  const ChunkSize: int := 5 * 1024 * 1024 * 10

  type ETag = string

  /** One iteration of the upload loop: the part number, the size asked of
      `read`, the range that read requested, and the bytes it returned. */
  datatype PartUpload = PartUpload(partNumber: int, asked: int, request: ByteRange, body: seq<byte>)

  /** An entry of the `Parts` list handed to the completion call. */
  datatype CompletedPart = CompletedPart(eTag: ETag, partNumber: int)

  /** The arguments of one `upload_part` call. */
  datatype UploadPartCall = UploadPartCall(bucket: string, key: string, uploadId: string, partNumber: int, body: seq<byte>)

  /** The arguments of the `complete_multipart_upload` call. */
  datatype CompleteCall = CompleteCall(bucket: string, key: string, uploadId: string, parts: seq<CompletedPart>)

  /** A notification record, with its key already URL-decoded. */
  datatype Record = Record(bucket: string, key: string)

  /** What processing one record sends to the store: the parts read and
      uploaded, and the completion call. */
  datatype RecordRun = RecordRun(uploads: seq<PartUpload>, complete: CompleteCall)

  /** The size the loop asks `read` for in iteration `n`. The comparison is
      with `totalParts + 2`, one past the last iteration. */
  function ChunkToRead(n: int, totalParts: int, leftover: int, chunkSize: int): int {
    if n == totalParts + 2 then leftover else chunkSize
  }

  /** The comparison in `ChunkToRead` never holds inside the loop, so every
      iteration asks for a full chunk. */
  lemma ChunkToReadIsAlwaysFull(n: int, totalParts: int, leftover: int, chunkSize: int)
    requires 1 <= n < totalParts + 2
    ensures ChunkToRead(n, totalParts, leftover, chunkSize) == chunkSize
  {
  }

  /** The bytes of the parts, in order. */
  function Concat(parts: seq<PartUpload>): seq<byte> {
    if |parts| == 0 then [] else Concat(parts[..|parts| - 1]) + parts[|parts| - 1].body
  }

  /** The `i`-th chunk of a `size`-byte object split into `chunkSize`-byte
      chunks starts at `i * chunkSize` and stops at the next boundary or at
      the end of the object. */
  function ChunkStart(i: nat, chunkSize: nat): nat {
    if i == 0 then 0 else ChunkStart(i - 1, chunkSize) + chunkSize
  }

  function ChunkEnd(i: nat, chunkSize: nat, size: nat): nat {
    Min(ChunkStart(i + 1, chunkSize), size)
  }

  /** The recursive definition is the closed form `i * chunkSize`. */
  lemma {:induction false} ChunkStartIsProduct(i: nat, chunkSize: nat)
    ensures ChunkStart(i, chunkSize) == i * chunkSize
  {
    if i > 0 {
      ChunkStartIsProduct(i - 1, chunkSize);
      assert (i - 1) * chunkSize + chunkSize == i * chunkSize;
    }
  }

  lemma {:induction false} ChunkStartMonotonic(i: nat, j: nat, chunkSize: nat)
    requires i <= j
    ensures ChunkStart(i, chunkSize) <= ChunkStart(j, chunkSize)
    decreases j
  {
    if i < j {
      ChunkStartMonotonic(i, j - 1, chunkSize);
    }
  }

  /** The last chunk boundary at or below `size` is the one numbered
      `size / chunkSize`, and the bytes past it are `size % chunkSize`. */
  lemma LastBoundary(size: nat, chunkSize: nat)
    requires chunkSize > 0
    ensures ChunkStart(size / chunkSize, chunkSize) + size % chunkSize == size
    ensures size % chunkSize < chunkSize
  {
    ChunkStartIsProduct(size / chunkSize, chunkSize);
  }

  /** The chunks below `size / chunkSize` are full and abut each other; the
      chunk numbered `size / chunkSize` is the remainder and ends at `size`. */
  lemma ChunkBounds(i: nat, chunkSize: nat, size: nat)
    requires chunkSize > 0 && i <= size / chunkSize
    ensures ChunkStart(i, chunkSize) <= ChunkEnd(i, chunkSize, size) <= size
    ensures i < size / chunkSize ==>
              ChunkEnd(i, chunkSize, size) == ChunkStart(i + 1, chunkSize) == ChunkStart(i, chunkSize) + chunkSize
    ensures i == size / chunkSize ==> ChunkEnd(i, chunkSize, size) == size
    ensures i == size / chunkSize ==> size - ChunkStart(i, chunkSize) == size % chunkSize
    ensures ChunkStart(i, chunkSize) + chunkSize < size <==> ChunkEnd(i, chunkSize, size) < size
  {
    var q := size / chunkSize;
    LastBoundary(size, chunkSize);
    ChunkStartMonotonic(i, q, chunkSize);
    assert ChunkStart(i + 1, chunkSize) == ChunkStart(i, chunkSize) + chunkSize;
    if i < q {
      ChunkStartMonotonic(i + 1, q, chunkSize);
    }
  }

  /** Reading one chunk at a chunk boundary returns that chunk and moves the
      cursor to the next boundary. */
  lemma ReadChunk(f: S3File, chunkSize: nat, i: nat)
    requires chunkSize > 0 && i <= f.Size() / chunkSize
    requires f.Tell() == ChunkStart(i, chunkSize)
    ensures ChunkStart(i, chunkSize) <= ChunkEnd(i, chunkSize, f.Size()) <= f.Size()
    ensures Read(f, chunkSize).body ==
              Success(f.content[ChunkStart(i, chunkSize)..ChunkEnd(i, chunkSize, f.Size())])
    ensures Read(f, chunkSize).request ==
              if ChunkStart(i, chunkSize) + chunkSize < f.Size()
              then Span(ChunkStart(i, chunkSize), ChunkStart(i, chunkSize) + chunkSize - 1)
              else From(ChunkStart(i, chunkSize))
    ensures Read(f, chunkSize).after.content == f.content
    ensures Read(f, chunkSize).after.Tell() ==
              if i < f.Size() / chunkSize then ChunkStart(i + 1, chunkSize) else f.Size()
  {
    ChunkBounds(i, chunkSize, f.Size());
    var start := f.Tell();
    if ReachesEnd(f, chunkSize) {
      assert f.content[start..f.Size()] == f.content[start..];
    }
  }

  /** `u` records the read of the `i`-th chunk of `content`. */
  ghost predicate IsChunk(content: seq<byte>, chunkSize: nat, i: nat, u: PartUpload) {
    var start, end := ChunkStart(i, chunkSize), ChunkEnd(i, chunkSize, |content|);
    && u.partNumber == i + 1
    && u.asked == chunkSize
    && start <= end <= |content|
    && u.body == content[start..end]
    && u.request == if start + chunkSize < |content| then Span(start, start + chunkSize - 1) else From(start)
  }

  /** One iteration of the loop: the read at the `i`-th boundary records the
      `i`-th chunk and extends the bytes read so far up to the new cursor. */
  lemma NextPart(f: S3File, chunkSize: nat, i: nat)
    requires chunkSize > 0 && i <= f.Size() / chunkSize
    requires f.Tell() == ChunkStart(i, chunkSize)
    ensures Read(f, chunkSize).body.Success?
    ensures IsChunk(f.content, chunkSize, i,
                    PartUpload(i + 1, chunkSize, Read(f, chunkSize).request, Read(f, chunkSize).body.value))
    ensures Read(f, chunkSize).after.content == f.content
    ensures 0 <= Read(f, chunkSize).after.Tell() <= f.Size()
    ensures Read(f, chunkSize).after.Tell() ==
              if i < f.Size() / chunkSize then ChunkStart(i + 1, chunkSize) else f.Size()
    ensures f.content[..f.Tell()] + Read(f, chunkSize).body.value == f.content[..Read(f, chunkSize).after.Tell()]
  {
    ReadChunk(f, chunkSize, i);
    ChunkBounds(i, chunkSize, f.Size());
    var step := Read(f, chunkSize);
    var a, b := ChunkStart(i, chunkSize), ChunkEnd(i, chunkSize, f.Size());
    assert step.after.Tell() == b;
    assert f.content[..a] + f.content[a..b] == f.content[..b];
  }

  /** Reading every chunk yields full parts followed by one part holding the
      remainder, which is empty when the size is a multiple of the chunk size. */
  lemma PartSizes(content: seq<byte>, chunkSize: nat, uploads: seq<PartUpload>)
    requires chunkSize > 0 && |uploads| == |content| / chunkSize + 1
    requires forall i :: 0 <= i < |uploads| ==> IsChunk(content, chunkSize, i, uploads[i])
    ensures forall i :: 0 <= i < |uploads| ==> uploads[i].partNumber == i + 1
    ensures forall i :: 0 <= i < |uploads| - 1 ==> |uploads[i].body| == chunkSize
    ensures |uploads[|uploads| - 1].body| == |content| % chunkSize
    ensures uploads[|uploads| - 1].body == [] <==> |content| % chunkSize == 0
  {
    forall i | 0 <= i < |uploads|
      ensures uploads[i].partNumber == i + 1
      ensures |uploads[i].body| == if i < |uploads| - 1 then chunkSize else |content| % chunkSize
    {
      ChunkBounds(i, chunkSize, |content|);
      assert IsChunk(content, chunkSize, i, uploads[i]);
    }
  }

  /** Every record in `uploads` is the read of the chunk at its own index. */
  ghost predicate ChunksSoFar(content: seq<byte>, chunkSize: nat, uploads: seq<PartUpload>) {
    |uploads| == 0 ||
    (ChunksSoFar(content, chunkSize, uploads[..|uploads| - 1]) &&
     IsChunk(content, chunkSize, |uploads| - 1, uploads[|uploads| - 1]))
  }

  lemma {:induction false} ChunksSoFarIndex(content: seq<byte>, chunkSize: nat, uploads: seq<PartUpload>)
    requires ChunksSoFar(content, chunkSize, uploads)
    ensures forall i :: 0 <= i < |uploads| ==> IsChunk(content, chunkSize, i, uploads[i])
  {
    if |uploads| > 0 {
      var init := uploads[..|uploads| - 1];
      ChunksSoFarIndex(content, chunkSize, init);
      assert forall i :: 0 <= i < |init| ==> uploads[i] == init[i];
    }
  }

  /** The `Parts` list handed to the completion call: one entry per upload,
      carrying the upload's part number and the entity tag the store gave it. */
  function Manifest(uploads: seq<PartUpload>, eTagOf: (int, seq<byte>) -> ETag): seq<CompletedPart> {
    if |uploads| == 0 then []
    else
      var last := uploads[|uploads| - 1];
      Manifest(uploads[..|uploads| - 1], eTagOf) + [CompletedPart(eTagOf(last.partNumber, last.body), last.partNumber)]
  }

  lemma {:induction false} ManifestIndex(uploads: seq<PartUpload>, eTagOf: (int, seq<byte>) -> ETag)
    ensures |Manifest(uploads, eTagOf)| == |uploads|
    ensures forall i :: 0 <= i < |uploads| ==>
              Manifest(uploads, eTagOf)[i] == CompletedPart(eTagOf(uploads[i].partNumber, uploads[i].body), uploads[i].partNumber)
  {
    if |uploads| > 0 {
      var init := uploads[..|uploads| - 1];
      ManifestIndex(init, eTagOf);
      assert forall i :: 0 <= i < |init| ==> uploads[i] == init[i];
    }
  }

  lemma ManifestSnoc(uploads: seq<PartUpload>, u: PartUpload, eTagOf: (int, seq<byte>) -> ETag)
    ensures Manifest(uploads + [u], eTagOf) == Manifest(uploads, eTagOf) + [CompletedPart(eTagOf(u.partNumber, u.body), u.partNumber)]
  {
    assert (uploads + [u])[..|uploads|] == uploads;
  }

  lemma ConcatSnoc(parts: seq<PartUpload>, p: PartUpload)
    ensures Concat(parts + [p]) == Concat(parts) + p.body
  {
    assert (parts + [p])[..|parts|] == parts;
  }

  /** The variables of the part loop: the stream, the parts uploaded so far,
      the `Parts` list so far, and the next part number. */
  datatype Progress = Progress(file: S3File, uploads: seq<PartUpload>, parts: seq<CompletedPart>, n: int)

  /** What holds before each iteration of the part loop. */
  ghost predicate LoopInvariant(content: seq<byte>, chunkSize: nat, eTagOf: (int, seq<byte>) -> ETag, p: Progress) {
    && chunkSize > 0
    && 1 <= p.n <= |content| / chunkSize + 2
    && |p.uploads| == p.n - 1
    && p.file.content == content
    && p.file.position == (if p.n <= |content| / chunkSize + 1 then ChunkStart(p.n - 1, chunkSize) else |content|)
    && 0 <= p.file.position <= |content|
    && ChunksSoFar(content, chunkSize, p.uploads)
    && p.parts == Manifest(p.uploads, eTagOf)
    && Concat(p.uploads) == content[..p.file.position]
  }

  /** One iteration of the part loop: pick the size to ask for, read it,
      upload it and append the entry to the `Parts` list. */
  method Iterate(content: seq<byte>, chunkSize: nat, eTagOf: (int, seq<byte>) -> ETag, p: Progress)
    returns (next: Progress)
    requires LoopInvariant(content, chunkSize, eTagOf, p) && p.n < |content| / chunkSize + 2
    ensures LoopInvariant(content, chunkSize, eTagOf, next) && next.n == p.n + 1
    ensures next.uploads[..|p.uploads|] == p.uploads && next.uploads[|p.uploads|].partNumber == p.n
  {
    var totalParts, leftover := |content| / chunkSize, |content| % chunkSize;
    var n := p.n;
    NextPart(p.file, chunkSize, n - 1);
    var chunkToRead := ChunkToRead(n, totalParts, leftover, chunkSize);
    var step := Read(p.file, chunkToRead);
    var upload := PartUpload(n, chunkToRead, step.request, step.body.value);
    ConcatSnoc(p.uploads, upload);
    ManifestSnoc(p.uploads, upload, eTagOf);
    var uploads := p.uploads + [upload];
    assert uploads[..|uploads| - 1] == p.uploads;
    next := Progress(step.after, uploads, p.parts + [CompletedPart(eTagOf(n, upload.body), n)], n + 1);
  }

  /** What the part loop leaves behind: the `upload_part` calls it made, in
      order, and the `Parts` list it built for the completion call. */
  datatype PartRun = PartRun(uploads: seq<PartUpload>, parts: seq<CompletedPart>)

  /** The part loop of `lambda_handler`, starting from a fresh `S3File`.
      It makes `size / chunkSize + 1` reads of `chunkSize` bytes each; the
      short last chunk comes from the read-to-end fallback of `read`, and
      when the size is a multiple of the chunk size the last read starts at
      the end and yields an empty part. */
  method UploadParts(content: seq<byte>, chunkSize: nat, eTagOf: (int, seq<byte>) -> ETag) returns (run: PartRun)
    requires chunkSize > 0
    ensures |run.uploads| == |content| / chunkSize + 1 == |run.parts|
    ensures forall i :: 0 <= i < |run.uploads| ==> IsChunk(content, chunkSize, i, run.uploads[i])
    ensures forall i :: 0 <= i < |run.parts| ==>
              run.parts[i] == CompletedPart(eTagOf(i + 1, run.uploads[i].body), i + 1)
    ensures Concat(run.uploads) == content
  {
    var totalParts := |content| / chunkSize;
    var p := Progress(Open(content), [], [], 1);
    while p.n < totalParts + 2
      invariant LoopInvariant(content, chunkSize, eTagOf, p)
      decreases totalParts + 2 - p.n
    {
      p := Iterate(content, chunkSize, eTagOf, p);
    }
    ChunksSoFarIndex(content, chunkSize, p.uploads);
    ManifestIndex(p.uploads, eTagOf);
    run := PartRun(p.uploads, p.parts);
  }

  /** Processes one record: the upload goes to the derived target key, and
      the completion call lists the parts 1, 2, ... in order. */
  method ProcessRecord(
    record: Record,
    objectAt: (string, string) -> seq<byte>,
    createUpload: (string, string) -> string,
    uploadPart: UploadPartCall -> ETag
  ) returns (run: RecordRun)
    ensures run.complete.bucket == record.bucket
    ensures run.complete.key == KeyPath.TargetKey(record.key)
    ensures run.complete.uploadId == createUpload(record.bucket, run.complete.key)
    ensures |run.complete.parts| == |run.uploads| == |objectAt(record.bucket, record.key)| / ChunkSize + 1
    ensures forall i :: 0 <= i < |run.complete.parts| ==>
              run.complete.parts[i].partNumber == i + 1 &&
              run.complete.parts[i].eTag ==
                uploadPart(UploadPartCall(run.complete.bucket, run.complete.key, run.complete.uploadId, i + 1, run.uploads[i].body))
    ensures forall i :: 0 <= i < |run.uploads| ==>
              IsChunk(objectAt(record.bucket, record.key), ChunkSize, i, run.uploads[i])
    ensures Concat(run.uploads) == objectAt(record.bucket, record.key)
  {
    var targetKey := KeyPath.TargetKey(record.key);
    var uploadId := createUpload(record.bucket, targetKey);
    var content := objectAt(record.bucket, record.key);
    var parts := UploadParts(content, ChunkSize,
      (n, body) => uploadPart(UploadPartCall(record.bucket, targetKey, uploadId, n, body)));
    run := RecordRun(parts.uploads, CompleteCall(record.bucket, targetKey, uploadId, parts.parts));
  }

  /** `call` is the completion that processing `record` sends: it goes to the
      record's bucket and derived key with the upload id created for that key,
      and its `Parts` list holds, for every chunk `j` of the source object in
      order, part number `j + 1` and the entity tag that uploading chunk `j`
      returned. */
  ghost predicate Completed(
    record: Record,
    call: CompleteCall,
    objectAt: (string, string) -> seq<byte>,
    createUpload: (string, string) -> string,
    uploadPart: UploadPartCall -> ETag
  ) {
    var content := objectAt(record.bucket, record.key);
    && call.bucket == record.bucket
    && call.key == KeyPath.TargetKey(record.key)
    && call.uploadId == createUpload(record.bucket, call.key)
    && |call.parts| == |content| / ChunkSize + 1
    && forall j :: 0 <= j < |call.parts| ==>
         && call.parts[j].partNumber == j + 1
         && ChunkStart(j, ChunkSize) <= ChunkEnd(j, ChunkSize, |content|) <= |content|
         && call.parts[j].eTag ==
              uploadPart(UploadPartCall(call.bucket, call.key, call.uploadId, j + 1,
                                        content[ChunkStart(j, ChunkSize)..ChunkEnd(j, ChunkSize, |content|)]))
  }

  /** `lambda_handler`: the records are processed in order, each ending in
      one completion call that lists the chunks of its own object. */
  method LambdaHandler(
    records: seq<Record>,
    objectAt: (string, string) -> seq<byte>,
    createUpload: (string, string) -> string,
    uploadPart: UploadPartCall -> ETag
  ) returns (completions: seq<CompleteCall>)
    ensures |completions| == |records|
    ensures forall i :: 0 <= i < |records| ==>
              Completed(records[i], completions[i], objectAt, createUpload, uploadPart)
  {
    completions := [];
    for k := 0 to |records|
      invariant |completions| == k
      invariant forall i :: 0 <= i < k ==>
                  Completed(records[i], completions[i], objectAt, createUpload, uploadPart)
    {
      var run := ProcessRecord(records[k], objectAt, createUpload, uploadPart);
      completions := completions + [run.complete];
    }
  }
}
