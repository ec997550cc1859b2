/**
 Derivation of the target key from the (already URL-decoded) source key:
 split on "/", replace the first segment with the name of the target
 encoding, join on "/" again. `Split` and `Join` follow Python's
 `str.split(sep)` and `sep.join(parts)` for a one-character separator.
 */
module KeyPath {

  /** The segment that replaces the first segment of the source key. */
  const Marker: string := "utf-8"

  const Slash: char := '/'

  /** The position of the first occurrence of `c` in `s`. */
  function IndexOf(s: string, c: char): (i: nat)
    requires c in s
    ensures i < |s| && s[i] == c
  {
    if s[0] == c then 0
    else
      assert s == [s[0]] + s[1..];
      1 + IndexOf(s[1..], c)
  }

  /** No earlier position holds `c`. */
  lemma {:induction false} IndexOfIsFirst(s: string, c: char)
    requires c in s
    ensures c !in s[..IndexOf(s, c)]
  {
    if s[0] != c {
      assert s == [s[0]] + s[1..];
      IndexOfIsFirst(s[1..], c);
      assert s[..IndexOf(s, c)] == [s[0]] + s[1..][..IndexOf(s[1..], c)];
    }
  }

  /** Python's `s.split(sep)`: the maximal runs between separators, so a
      string with k separators has k + 1 segments, some possibly empty. */
  function Split(s: string, sep: char): (parts: seq<string>)
    ensures |parts| >= 1
    decreases |s|
  {
    if sep !in s then [s]
    else
      var i := IndexOf(s, sep);
      [s[..i]] + Split(s[i + 1..], sep)
  }

  /** Python's `sep.join(parts)`. */
  function Join(parts: seq<string>, sep: char): string {
    if |parts| == 0 then ""
    else if |parts| == 1 then parts[0]
    else parts[0] + [sep] + Join(parts[1..], sep)
  }

  /** The key the re-encoded object is written to (handler.py line 69). */
  function TargetKey(sourceKey: string): string {
    Join([Marker] + Split(sourceKey, Slash)[1..], Slash)
  }

  lemma JoinCons(head: string, parts: seq<string>, sep: char)
    requires |parts| >= 1
    ensures Join([head] + parts, sep) == head + [sep] + Join(parts, sep)
  {
    assert ([head] + parts)[1..] == parts;
  }

  /** Splitting a string that contains the separator peels off the segment
      before its first occurrence. */
  lemma SplitFirst(s: string, sep: char)
    requires sep in s
    ensures Split(s, sep) == [s[..IndexOf(s, sep)]] + Split(s[IndexOf(s, sep) + 1..], sep)
    ensures s == s[..IndexOf(s, sep)] + [sep] + s[IndexOf(s, sep) + 1..]
  {
    var i := IndexOf(s, sep);
    assert s == s[..i] + [s[i]] + s[i + 1..];
  }

  /** In a separator-free segment followed by the separator, the first
      occurrence is right after the segment. */
  lemma FirstSeparator(head: string, rest: string, sep: char)
    requires sep !in head
    ensures sep in head + [sep] + rest
    ensures IndexOf(head + [sep] + rest, sep) == |head|
  {
    var s := head + [sep] + rest;
    assert s[|head|] == sep;
    assert s[..|head|] == head;
    IndexOfIsFirst(s, sep);
  }

  /** Joining the segments of a string gives the string back. */
  lemma {:induction false} JoinSplit(s: string, sep: char)
    ensures Join(Split(s, sep), sep) == s
    decreases |s|
  {
    if sep in s {
      var i := IndexOf(s, sep);
      SplitFirst(s, sep);
      JoinCons(s[..i], Split(s[i + 1..], sep), sep);
      JoinSplit(s[i + 1..], sep);
    }
  }

  /** Splitting a join of separator-free segments gives the segments back. */
  lemma {:induction false} SplitJoin(parts: seq<string>, sep: char)
    requires |parts| >= 1
    requires forall i :: 0 <= i < |parts| ==> sep !in parts[i]
    ensures Split(Join(parts, sep), sep) == parts
    decreases |parts|
  {
    if |parts| > 1 {
      var head, tail := parts[0], parts[1..];
      var rest := Join(tail, sep);
      JoinCons(head, tail, sep);
      assert parts == [head] + tail;
      FirstSeparator(head, rest, sep);
      var s := head + [sep] + rest;
      SplitFirst(s, sep);
      assert s[..|head|] == head;
      assert s[|head| + 1..] == rest;
      SplitJoin(tail, sep);
    }
  }

  lemma SuffixFrom(s: string, i: nat)
    requires i < |s|
    ensures s[i..] == [s[i]] + s[i + 1..]
  {
  }

  /** No segment contains the separator. */
  lemma {:induction false} SplitSegmentsSeparatorFree(s: string, sep: char)
    ensures forall i :: 0 <= i < |Split(s, sep)| ==> sep !in Split(s, sep)[i]
    decreases |s|
  {
    if sep in s {
      var i := IndexOf(s, sep);
      SplitFirst(s, sep);
      IndexOfIsFirst(s, sep);
      SplitSegmentsSeparatorFree(s[i + 1..], sep);
    }
  }

  lemma TargetKeyWithoutSlash(sourceKey: string)
    requires Slash !in sourceKey
    ensures TargetKey(sourceKey) == Marker
  {
    assert Split(sourceKey, Slash) == [sourceKey];
    assert [Marker] + Split(sourceKey, Slash)[1..] == [Marker];
  }

  lemma TargetKeyWithSlash(sourceKey: string)
    requires Slash in sourceKey
    ensures TargetKey(sourceKey) == Marker + sourceKey[IndexOf(sourceKey, Slash)..]
  {
    var i := IndexOf(sourceKey, Slash);
    var tail := sourceKey[i + 1..];
    var tailParts := Split(tail, Slash);
    SplitFirst(sourceKey, Slash);
    assert Split(sourceKey, Slash)[1..] == tailParts;
    assert TargetKey(sourceKey) == Join([Marker] + tailParts, Slash);
    JoinCons(Marker, tailParts, Slash);
    JoinSplit(tail, Slash);
    SuffixFrom(sourceKey, i);
  }

  /** The target key is the marker followed by everything from the first "/"
      of the source key on; a key without "/" maps to the marker alone. */
  lemma TargetKeyReplacesFirstSegment(sourceKey: string)
    ensures Slash !in sourceKey ==> TargetKey(sourceKey) == Marker
    ensures Slash in sourceKey ==>
              TargetKey(sourceKey) == Marker + sourceKey[IndexOf(sourceKey, Slash)..]
  {
    if Slash in sourceKey {
      TargetKeyWithSlash(sourceKey);
    } else {
      TargetKeyWithoutSlash(sourceKey);
    }
  }

  /** Every segment of the source key after the first survives verbatim, in
      order, behind the marker. */
  lemma TargetKeySegments(sourceKey: string)
    ensures Split(TargetKey(sourceKey), Slash) == [Marker] + Split(sourceKey, Slash)[1..]
  {
    var parts := [Marker] + Split(sourceKey, Slash)[1..];
    SplitSegmentsSeparatorFree(sourceKey, Slash);
    assert Slash !in Marker;
    forall i | 0 <= i < |parts|
      ensures Slash !in parts[i]
    {
      if i > 0 {
        assert parts[i] == Split(sourceKey, Slash)[i];
      }
    }
    SplitJoin(parts, Slash);
  }
}
