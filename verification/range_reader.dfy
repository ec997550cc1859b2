/**
 A read-only, seekable stream over a remote object of fixed size (the `S3File`
 class of handler.py). The remote object is an immutable byte sequence; every
 read turns the cursor into one HTTP byte-range request, and the store's
 answer to that request is modelled by `Fetch`.
 */
module RangeReader {
  import opened Wrappers

  type byte = bv8

  /** The `whence` values of Python's `io` module. */
  const SeekSet: int := 0
  const SeekCur: int := 1
  const SeekEnd: int := 2

  function Min(a: int, b: int): int {
    if a <= b then a else b
  }

  /** The value of a `Range` header: `From(first)` is `bytes=first-` (to the
      end of the object), `Span(first, last)` is `bytes=first-last` (both ends
      inclusive). */
  datatype ByteRange = From(first: int) | Span(first: int, last: int)

  datatype Error =
    | InvalidWhence(whence: int)   // the ValueError raised by seek
    | InvalidRange(range: ByteRange)   // a header whose positions are negative or inverted

  /** A range header a store can satisfy: no negative position, and a span
      whose last byte does not precede its first. */
  predicate WellFormed(r: ByteRange) {
    match r
    case From(first) => 0 <= first
    case Span(first, last) => 0 <= first <= last
  }

  /** The ranged GET: the bytes of `content` inside the range, clipped to the
      end of the object, so a range starting at or past the end is empty. */
  function Fetch(content: seq<byte>, r: ByteRange): (body: Result<seq<byte>, Error>)
    ensures body.Success? <==> WellFormed(r)
    ensures body.Success? ==> |body.value| <= |content|
    ensures body.Success? ==>
              forall i :: 0 <= i < |body.value| ==>
                r.first + i < |content| && body.value[i] == content[r.first + i]
    ensures body.Success? && r.From? && r.first <= |content| ==>
              |body.value| == |content| - r.first
    ensures body.Success? && r.Span? && r.last < |content| ==>
              |body.value| == r.last - r.first + 1
  {
    match r
    case From(first) =>
      if first < 0 then Failure(InvalidRange(r))
      else Success(content[Min(first, |content|)..])
    case Span(first, last) =>
      if first < 0 || last < first then Failure(InvalidRange(r))
      else Success(content[Min(first, |content|)..Min(last + 1, |content|)])
  }

  /** The stream: the remote object's bytes and the cursor. The cursor is
      never clamped, so it may be negative or lie past the end. */
  datatype S3File = S3File(content: seq<byte>, position: int) {

    /** The object's `content_length`. */
    function Size(): nat {
      |content|
    }

    function Tell(): int {
      position
    }
  }

  /** A freshly constructed stream: the cursor starts at 0. */
  function Open(content: seq<byte>): (f: S3File)
    ensures f.content == content
    ensures f.Tell() == 0 && f.Size() == |content|
  {
    S3File(content, 0)
  }

  /** The outcome of `seek`: the stream after the call and what it returned
      or raised. */
  datatype SeekStep = SeekStep(after: S3File, result: Result<int, Error>)

  /** The outcome of `read`: the stream after the call, the range requested
      and the store's answer. */
  datatype ReadStep = ReadStep(after: S3File, request: ByteRange, body: Result<seq<byte>, Error>)

  function Seek(f: S3File, offset: int, whence: int): (s: SeekStep)
    ensures s.after.content == f.content
    ensures whence == SeekSet ==> s.after.Tell() == offset
    ensures whence == SeekCur ==> s.after.Tell() == f.Tell() + offset
    ensures whence == SeekEnd ==> s.after.Tell() == f.Size() + offset
    ensures s.result.Success? <==> whence == SeekSet || whence == SeekCur || whence == SeekEnd
    ensures s.result.Success? ==> s.result.value == s.after.Tell()
    ensures s.result.Failure? ==> s.after == f && s.result.error == InvalidWhence(whence)
  {
    if whence == SeekSet then
      var g := f.(position := offset);
      SeekStep(g, Success(g.position))
    else if whence == SeekCur then
      var g := f.(position := f.position + offset);
      SeekStep(g, Success(g.position))
    else if whence == SeekEnd then
      var g := f.(position := f.Size() + offset);
      SeekStep(g, Success(g.position))
    else
      SeekStep(f, Failure(InvalidWhence(whence)))
  }

  /** `read()` with the default size: one open-ended request from the cursor,
      after which the cursor is moved to the end. */
  function ReadToEnd(f: S3File): ReadStep {
    var request := From(f.position);
    ReadStep(Seek(f, 0, SeekEnd).after, request, Fetch(f.content, request))
  }

  /** True when `read(n)` is served by the read-to-end path: `n` is the
      default -1, or the bounded read would reach or pass the end. */
  predicate ReachesEnd(f: S3File, n: int) {
    n == -1 || f.position + n >= f.Size()
  }

  /** `read(n)`. */
  function Read(f: S3File, n: int): (s: ReadStep)
    ensures s.after.content == f.content
    // the request issued and the cursor afterwards
    ensures ReachesEnd(f, n) ==> s.request == From(f.Tell()) && s.after.Tell() == f.Size()
    ensures !ReachesEnd(f, n) ==>
              s.request == Span(f.Tell(), f.Tell() + n - 1) && s.after.Tell() == f.Tell() + n
    // when the store can answer
    ensures s.body.Success? <==> 0 <= f.Tell() && (ReachesEnd(f, n) || 1 <= n)
    // what it answers
    ensures s.body.Success? && ReachesEnd(f, n) ==>
              s.body.value == if f.Tell() <= f.Size() then f.content[f.Tell()..] else []
    ensures s.body.Success? && !ReachesEnd(f, n) ==>
              |s.body.value| == n && s.body.value == f.content[f.Tell()..f.Tell() + n]
  {
    if n == -1 then
      ReadToEnd(f)
    else
      var newPosition := f.position + n;
      if newPosition >= f.Size() then
        ReadToEnd(f)
      else
        var request := Span(f.position, newPosition - 1);
        ReadStep(Seek(f, n, SeekCur).after, request, Fetch(f.content, request))
  }

  /** The three modes name the same absolute position: a relative seek by `d`
      is undone by a relative seek by `-d`, and every mode can reach any target. */
  lemma SeekModesAgree(f: S3File, target: int, d: int)
    ensures Seek(f, target, SeekSet).after == Seek(f, target - f.Tell(), SeekCur).after
    ensures Seek(f, target, SeekSet).after == Seek(f, target - f.Size(), SeekEnd).after
    ensures Seek(Seek(f, d, SeekCur).after, -d, SeekCur).after == f
  {
  }

  /** A bounded read that would reach the end behaves exactly like `read()`:
      same request, same bytes, same cursor afterwards. */
  lemma ReadPastEndIsReadAll(f: S3File, n: int)
    requires f.Tell() + n >= f.Size()
    ensures Read(f, n) == Read(f, -1)
  {
  }

  /** Reading `n` bytes and then the rest yields exactly what reading
      everything from the same cursor yields, and ends at the same place. */
  lemma ReadThenReadAll(f: S3File, n: int)
    requires 0 <= f.Tell() <= f.Size() && 1 <= n
    ensures Read(f, n).body.Success? && Read(Read(f, n).after, -1).body.Success?
    ensures Read(f, n).body.value + Read(Read(f, n).after, -1).body.value == Read(f, -1).body.value
    ensures Read(Read(f, n).after, -1).after == Read(f, -1).after
  {
    var p := f.Tell();
    if !ReachesEnd(f, n) {
      assert f.content[p..p + n] + f.content[p + n..] == f.content[p..];
    }
  }
}
