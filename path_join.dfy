/** The guest's variadic path join: one or more segments joined with a
    single '/' between consecutive segments, into a freshly allocated,
    NUL-terminated guest string sized exactly to the result. The C
    argument list is a sequence of segments, each the bytes of a C string
    up to (not including) its NUL. */
module PathJoin {
  import opened Common
  import NativeLib

  /** The joined path: segments with one separator between neighbours and
      none before the first or after the last. */
  function Join(parts: seq<Bytes>): (r: Bytes)
    requires |parts| >= 1
  {
    if |parts| == 1 then parts[0] else parts[0] + [SLASH] + Join(parts[1..])
  }

  /** Sum of the segment lengths. */
  function TotalLength(parts: seq<Bytes>): (r: nat)
  {
    if |parts| == 0 then 0 else |parts[0]| + TotalLength(parts[1..])
  }

  lemma {:induction false} TotalLengthSnoc(parts: seq<Bytes>, x: Bytes)
    ensures TotalLength(parts + [x]) == TotalLength(parts) + |x|
    decreases |parts|
  {
    if |parts| > 0 {
      assert (parts + [x])[1..] == parts[1..] + [x];
      TotalLengthSnoc(parts[1..], x);
    }
  }

  /** The joined path is exactly as long as its segments plus one separator
      between each neighbouring pair. */
  lemma {:induction false} JoinLength(parts: seq<Bytes>)
    requires |parts| >= 1
    ensures |Join(parts)| == TotalLength(parts) + |parts| - 1
    decreases |parts|
  {
    if |parts| > 1 {
      JoinLength(parts[1..]);
    }
  }

  /** Appending a segment appends a separator and the segment. */
  lemma {:induction false} JoinSnoc(parts: seq<Bytes>, x: Bytes)
    requires |parts| >= 1
    ensures Join(parts + [x]) == Join(parts) + [SLASH] + x
    decreases |parts|
  {
    assert (parts + [x])[1..] == parts[1..] + [x];
    if |parts| > 1 {
      JoinSnoc(parts[1..], x);
    }
  }

  /** Splits a path at every separator. */
  function Split(s: Bytes): (r: seq<Bytes>)
    ensures |r| >= 1
  {
    if |s| == 0 then [[]]
    else if s[0] == SLASH then [[]] + Split(s[1..])
    else var rest := Split(s[1..]); [[s[0]] + rest[0]] + rest[1..]
  }

  lemma {:induction false} SplitSegment(a: Bytes, tail: Bytes, more: seq<Bytes>)
    requires SLASH !in a
    requires Split(tail) == more
    ensures Split(a + tail) == [a + more[0]] + more[1..]
    decreases |a|
  {
    if |a| > 0 {
      assert (a + tail)[1..] == a[1..] + tail;
      SplitSegment(a[1..], tail, more);
      assert [a[0]] + (a[1..] + more[0]) == a + more[0];
    } else {
      assert a + tail == tail;
      assert a + more[0] == more[0];
      assert more == [more[0]] + more[1..];
    }
  }

  /** Joining segments that hold no separator can be undone: splitting the
      joined path gives the segments back. */
  lemma {:induction false} SplitUndoesJoin(parts: seq<Bytes>)
    requires |parts| >= 1
    requires forall i :: 0 <= i < |parts| ==> SLASH !in parts[i]
    ensures Split(Join(parts)) == parts
    decreases |parts|
  {
    if |parts| == 1 {
      SplitSegment(parts[0], [], [[]]);
      assert parts[0] + [] == parts[0];
    } else {
      var rest := Join(parts[1..]);
      SplitUndoesJoin(parts[1..]);
      assert Split([SLASH] + rest) == [[]] + parts[1..];
      assert parts[0] + [SLASH] + rest == parts[0] + ([SLASH] + rest);
      SplitSegment(parts[0], [SLASH] + rest, [[]] + parts[1..]);
      assert parts[0] + [] == parts[0];
      assert parts == [parts[0]] + parts[1..];
    }
  }

  /** A walked entry is the directory's entry prefix followed by the
      name, and taking it relative to the directory gives the name back.
      For a directory that does not end in '/', that entry is the join of
      the directory and the name. */
  lemma RelativeUndoesJoin(dir: Bytes, name: Bytes)
    ensures NativeLib.Relative(NativeLib.EntryPrefix(dir) + name, dir) == name
    ensures (|dir| == 0 || dir[|dir| - 1] != SLASH) ==> NativeLib.EntryPrefix(dir) + name == Join([dir, name])
  {
    var p := NativeLib.EntryPrefix(dir);
    assert (p + name)[..|p|] == p;
    assert [dir, name][1..] == [name];
    assert Join([name]) == name;
  }

  /** The bytes the fill loop has stored after handling `i` segments. */
  function Written(parts: seq<Bytes>, i: nat): (r: Bytes)
    requires i <= |parts|
  {
    if i == 0 then []
    else Written(parts, i - 1) + parts[i - 1] + (if i < |parts| then [SLASH] else [])
  }

  lemma {:induction false} WrittenIsJoinedPrefix(parts: seq<Bytes>, i: nat)
    requires 1 <= i <= |parts|
    ensures Written(parts, i) == Join(parts[..i]) + (if i < |parts| then [SLASH] else [])
    decreases i
  {
    if i == 1 {
      assert parts[..1] == [parts[0]];
    } else {
      WrittenIsJoinedPrefix(parts, i - 1);
      assert parts[..i] == parts[..i - 1] + [parts[i - 1]];
      JoinSnoc(parts[..i - 1], parts[i - 1]);
    }
  }

  lemma {:induction false} WrittenGrows(parts: seq<Bytes>, i: nat, j: nat)
    requires i <= j <= |parts|
    ensures |Written(parts, i)| <= |Written(parts, j)|
    decreases j
  {
    if i < j {
      WrittenGrows(parts, i, j - 1);
    }
  }

  /** One segment as the guest code records it. */
  datatype StringInfo = StringInfo(str: Bytes, length: nat)

  /** The first loop: records each segment with its `strlen` and sums the
      lengths. */
  method MeasureSegments(parts: seq<Bytes>) returns (pathStrings: array<StringInfo>, total: nat)
    ensures fresh(pathStrings)
    ensures pathStrings.Length == |parts| && total == TotalLength(parts)
    ensures forall k :: 0 <= k < |parts| ==> pathStrings[k] == StringInfo(parts[k], |parts[k]|)
  {
    var count := |parts|;
    total := 0;
    pathStrings := new StringInfo[count](_ => StringInfo([], 0));
    for i := 0 to count
      invariant total == TotalLength(parts[..i])
      invariant forall k :: 0 <= k < i ==> pathStrings[k] == StringInfo(parts[k], |parts[k]|)
    {
      pathStrings[i] := StringInfo(parts[i], |parts[i]|);
      total := total + pathStrings[i].length;
      assert parts[..i + 1] == parts[..i] + [parts[i]];
      TotalLengthSnoc(parts[..i], parts[i]);
    }
    assert parts[..count] == parts;
  }

  /** The inner loop: stores `data` byte by byte at the cursor and returns
      the advanced cursor. */
  method StoreAt(buf: array<bv8>, pos: nat, data: Bytes) returns (next: nat)
    requires pos + |data| <= buf.Length
    modifies buf
    ensures next == pos + |data|
    ensures buf[..next] == old(buf[..pos]) + data
    ensures buf[next..] == old(buf[next..])
  {
    next := pos;
    for j := 0 to |data|
      invariant next == pos + j
      invariant buf[..next] == old(buf[..pos]) + data[..j]
      invariant buf[next..] == old(buf[next..])
    {
      buf[next] := data[j];
      next := next + 1;
      assert data[..j + 1] == data[..j] + [data[j]];
    }
    assert data[..|data|] == data;
  }

  /** Measures the segments, allocates `sum of lengths + separators + 1`
      bytes, then advances a cursor through them storing each segment and a
      separator after every segment but the last, and stores NUL in the last
      byte. The cursor never passes the last byte. */
  method GetCombinedPath(parts: seq<Bytes>) returns (combinedPath: array<bv8>)
    requires |parts| >= 1
    ensures fresh(combinedPath)
    ensures combinedPath.Length == TotalLength(parts) + (|parts| - 1) + 1
    ensures combinedPath[..] == Join(parts) + [NUL]
  {
    var count := |parts|;
    var pathStrings, finalPathLen := MeasureSegments(parts);
    // room for the separators, then for the NUL
    finalPathLen := finalPathLen + (count - 1);
    finalPathLen := finalPathLen + 1;

    combinedPath := new bv8[finalPathLen];
    JoinLength(parts);
    WrittenIsJoinedPrefix(parts, count);
    assert parts[..count] == parts;
    var pos := 0;
    for i := 0 to count
      modifies combinedPath
      invariant pos == |Written(parts, i)|
      invariant pos <= finalPathLen - 1
      invariant combinedPath[..pos] == Written(parts, i)
    {
      var strInfo := pathStrings[i];
      WrittenGrows(parts, i + 1, count);
      assert strInfo.str == parts[i];
      assert Written(parts, i + 1) == Written(parts, i) + parts[i] + (if i + 1 < count then [SLASH] else []);
      pos := StoreAt(combinedPath, pos, strInfo.str);
      if i < count - 1 {
        combinedPath[pos] := SLASH;
        pos := pos + 1;
      }
    }
    combinedPath[finalPathLen - 1] := NUL;
    assert combinedPath[..] == combinedPath[..pos] + [NUL];
  }
}
