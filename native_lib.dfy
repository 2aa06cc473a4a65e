/** The host side of the bridge (the native library): filesystem queries
    on canonical paths, the bounded copy of a file or of a directory entry
    name into guest memory, and the sorted listing of a directory. Guest
    memory (`rdram`) is an array of bytes; a guest buffer is an index
    `ptr` into it and a size the guest declares. */
module NativeLib {
  import opened Common
  import opened HostFs
  import opened LexOrder

  /** What reading the whole file through a stream yields at copy time.
      The file may have changed since it was classified, so the bytes are
      not tied to the snapshot. `ReadFailed` is a stream in the bad state;
      a file that cannot be opened at all reads as `ReadBytes([])`. */
  datatype ReadResult = ReadFailed | ReadBytes(bytes: Bytes)

  // ---------------------------------------------------------------------
  // Classification exports
  // ---------------------------------------------------------------------

  /** `exists` on the canonical path: it holds for exactly the three kinds
      of node. */
  predicate NIsExist(fs: FileSystem, path: Path): (r: bool)
    ensures var c := Resolve(fs, path);
            r <==> IsFileAt(fs, c) || IsDirAt(fs, c) || (c in fs.nodes && fs.nodes[c].Other?)
  {
    ExistsAt(fs, Resolve(fs, path))
  }

  /** `is_regular_file` on the canonical path: a regular file exists and
      is not a directory. */
  predicate NIsFile(fs: FileSystem, path: Path): (r: bool)
    ensures r ==> ExistsAt(fs, Resolve(fs, path)) && !IsDirAt(fs, Resolve(fs, path))
  {
    IsFileAt(fs, Resolve(fs, path))
  }

  /** `is_directory` on the canonical path: a directory exists and is not
      a regular file. */
  predicate NIsDirectory(fs: FileSystem, path: Path): (r: bool)
    ensures r ==> ExistsAt(fs, Resolve(fs, path)) && !IsFileAt(fs, Resolve(fs, path))
  {
    IsDirAt(fs, Resolve(fs, path))
  }

  /** Size of a regular file as the guest receives it: narrowed to 32 bits,
      and 0 for anything that is not a regular file. */
  function NGetFileSize(fs: FileSystem, path: Path): (r: nat)
    ensures r < U32_LIMIT
    ensures !NIsFile(fs, path) ==> r == 0
    ensures NIsFile(fs, path) ==> r == FileSizeAt(fs, Resolve(fs, path)) % U32_LIMIT
  {
    var c := Resolve(fs, path);
    if !IsFileAt(fs, c) then 0 else U32(FileSizeAt(fs, c))
  }

  // ---------------------------------------------------------------------
  // Bounded copy of a file
  // ---------------------------------------------------------------------

  /** When the copy of a file into a buffer of `bufferSize` bytes goes
      ahead: the path is a regular file no larger than the buffer, and the
      bytes actually read still fit. */
  predicate CopySucceeds(fs: FileSystem, path: Path, read: ReadResult, bufferSize: nat): (r: bool)
    ensures r ==> NIsFile(fs, path) && NGetFileSize(fs, path) <= bufferSize
    ensures read.ReadFailed? ==> !r
  {
    var c := Resolve(fs, path);
    IsFileAt(fs, c) && FileSizeAt(fs, c) <= bufferSize
    && read.ReadBytes? && |read.bytes| <= bufferSize
  }

  /** Copies the whole file at `path` into the guest buffer at `ptr`.
      Either every byte read lands in the buffer and nothing else changes,
      or the copy is refused and guest memory is untouched: a file is never
      truncated into the buffer. */
  method CopyToRdramBuffer(rdram: array<bv8>, fs: FileSystem, path: Path, read: ReadResult,
                           ptr: nat, bufferSize: nat) returns (ok: bool)
    requires bufferSize < U32_LIMIT
    requires ptr + bufferSize <= rdram.Length
    modifies rdram
    ensures ok == CopySucceeds(fs, path, read, bufferSize)
    ensures ok ==> rdram[..] == Splice(old(rdram[..]), ptr, read.bytes)
    ensures !ok ==> rdram[..] == old(rdram[..])
  {
    var c := Resolve(fs, path);
    if !IsFileAt(fs, c) {
      return false;
    }
    var fileSize := FileSizeAt(fs, c);
    if bufferSize < fileSize {
      return false;
    }
    if read.ReadFailed? {
      return false;
    }
    var fileBytes := read.bytes;
    var realFileSize := |fileBytes|;
    if realFileSize > bufferSize {
      return false;
    }
    for i := 0 to realFileSize
      invariant rdram[..] == Splice(old(rdram[..]), ptr, fileBytes[..i])
    {
      rdram[ptr + i] := fileBytes[i];
      SpliceStep(old(rdram[..]), ptr, fileBytes[..i], fileBytes[i]);
      assert fileBytes[..i + 1] == fileBytes[..i] + [fileBytes[i]];
    }
    assert fileBytes[..realFileSize] == fileBytes;
    return true;
  }

  /** When nothing changed between classification and reading, a file that
      fits is copied, and the part of the buffer past its bytes is never
      stored to. */
  lemma ConsistentReadCopiesWholeFile(fs: FileSystem, path: Path, mem: Bytes, ptr: nat, bufferSize: nat)
    requires NIsFile(fs, path)
    requires FileSizeAt(fs, Resolve(fs, path)) <= bufferSize
    requires ptr + bufferSize <= |mem|
    ensures var contents := fs.nodes[Resolve(fs, path)].contents;
            CopySucceeds(fs, path, ReadBytes(contents), bufferSize)
            && Splice(mem, ptr, contents)[ptr + |contents|..ptr + bufferSize] == mem[ptr + |contents|..ptr + bufferSize]
  {
  }

  // ---------------------------------------------------------------------
  // Directory enumeration
  // ---------------------------------------------------------------------

  /** What every walked entry of a canonical directory starts with: the
      directory and one separator, or the directory alone when it already
      ends in a separator (a root such as "/"). */
  function EntryPrefix(dir: Path): (r: Path)
    ensures 0 < |r| && r[|r| - 1] == SLASH
    ensures |dir| <= |r| <= |dir| + 1 && r[..|dir|] == dir
  {
    if |dir| > 0 && dir[|dir| - 1] == SLASH then dir else dir + [SLASH]
  }

  /** The name of a walked entry relative to the directory: the entry with
      the directory and its separator stripped from its front. */
  function Relative(entry: Path, dir: Path): (r: Path)
    ensures var p := EntryPrefix(dir);
            |p| <= |entry| && entry[..|p|] == p ==> p + r == entry
  {
    var p := EntryPrefix(dir);
    if |p| <= |entry| && entry[..|p|] == p then entry[|p|..] else entry
  }

  /** Entries of the root lose only the root's separator: "/bin" relative
      to "/" is "bin". */
  lemma RootEntryLosesOnlyRoot(name: Path)
    ensures Relative([SLASH] + name, [SLASH]) == name
  {
    assert ([SLASH] + name)[..1] == [SLASH];
  }

  function RelativeNames(walk: seq<Path>, dir: Path): (r: seq<Bytes>)
    ensures |r| == |walk|
    ensures forall i :: 0 <= i < |walk| ==> r[i] == Relative(walk[i], dir)
  {
    seq(|walk|, i requires 0 <= i < |walk| => Relative(walk[i], dir))
  }

  /** The snapshot of a canonical directory: its walked entries, relative
      to it, in sorted order; empty for anything that is not a directory. */
  function SortedEntryNames(fs: FileSystem, dir: Path): (r: seq<Bytes>)
    ensures |r| == |WalkAt(fs, dir)|
    ensures !IsDirAt(fs, dir) ==> r == []
  {
    SortIsSortedPermutation(RelativeNames(WalkAt(fs, dir), dir));
    Sort(RelativeNames(WalkAt(fs, dir), dir))
  }

  /** The snapshot is sorted, is a permutation of the walked names, and
      does not depend on the order the host's iterator yields them in: any
      rearrangement of the names sorts to the same snapshot. */
  lemma SnapshotIsSortedWalk(fs: FileSystem, dir: Path, rearranged: seq<Bytes>)
    requires multiset(rearranged) == multiset(RelativeNames(WalkAt(fs, dir), dir))
    ensures var names := SortedEntryNames(fs, dir);
            Sorted(names)
            && multiset(names) == multiset(RelativeNames(WalkAt(fs, dir), dir))
            && |names| == |WalkAt(fs, dir)|
            && names == Sort(rearranged)
  {
    var walked := RelativeNames(WalkAt(fs, dir), dir);
    SortIsSortedPermutation(walked);
    SortIgnoresOrder(walked, rearranged);
  }

  /** Walks a canonical directory, collecting relative names, then sorts
      them. */
  method GetSortedDirEntryRelativeNames(fs: FileSystem, dirPath: Path) returns (v: seq<Bytes>)
    ensures v == SortedEntryNames(fs, dirPath)
    ensures !IsDirAt(fs, dirPath) ==> v == []
    ensures Sorted(v) && multiset(v) == multiset(RelativeNames(WalkAt(fs, dirPath), dirPath))
  {
    v := [];
    if IsDirAt(fs, dirPath) {
      var walk := fs.nodes[dirPath].walk;
      for i := 0 to |walk|
        invariant |v| == i
        invariant forall k :: 0 <= k < i ==> v[k] == Relative(walk[k], dirPath)
      {
        v := v + [Relative(walk[i], dirPath)];
      }
    }
    assert v == RelativeNames(WalkAt(fs, dirPath), dirPath);
    SortIsSortedPermutation(v);
    v := Sort(v);
  }

  /** Number of entries the recursive walk of a directory yields, narrowed
      to 32 bits; 0 for anything that is not a directory. */
  function NGetNumDirEntries(fs: FileSystem, dirPath: Path): (r: nat)
    ensures r < U32_LIMIT
    ensures !NIsDirectory(fs, dirPath) ==> r == 0
    ensures NIsDirectory(fs, dirPath) ==> r == |WalkAt(fs, Resolve(fs, dirPath))| % U32_LIMIT
  {
    var c := Resolve(fs, dirPath);
    if !IsDirAt(fs, c) then 0 else U32(|fs.nodes[c].walk|)
  }

  /** Byte length of the entry name at `index` of the snapshot, narrowed to
      32 bits; 0 when the path is not a directory or the index is out of
      range. */
  function NGetDirEntryNameLengthByIndex(fs: FileSystem, dirPath: Path, index: nat): (r: nat)
    ensures r < U32_LIMIT
    ensures var names := SortedEntryNames(fs, Resolve(fs, dirPath));
            r == if NIsDirectory(fs, dirPath) && index < |names| then |names[index]| % U32_LIMIT else 0
  {
    var c := Resolve(fs, dirPath);
    if !IsDirAt(fs, c) then 0
    else
      var entryNames := SortedEntryNames(fs, c);
      if index < |entryNames| then U32(|entryNames[index]|) else 0
  }

  /** The count and the by-index queries see the same snapshot: the count is
      the length of the sorted name list, and exactly the indices below it
      name an entry. */
  lemma CountMatchesSnapshot(fs: FileSystem, dirPath: Path)
    ensures var names := SortedEntryNames(fs, Resolve(fs, dirPath));
            NGetNumDirEntries(fs, dirPath) == |names| % U32_LIMIT
            && (!NIsDirectory(fs, dirPath) ==> names == [])
  {
    var c := Resolve(fs, dirPath);
    SortIsSortedPermutation(RelativeNames(WalkAt(fs, c), c));
  }

  // ---------------------------------------------------------------------
  // Bounded copy of a directory entry name
  // ---------------------------------------------------------------------

  /** The bytes a name copy leaves in a buffer of `bufferSize > 0` bytes:
      the name followed by NUL when it fits, otherwise its first
      `bufferSize - 1` bytes followed by NUL. */
  function NameRegion(name: Bytes, bufferSize: nat): (r: Bytes)
    requires bufferSize > 0
    ensures |r| == Min(|name| + 1, bufferSize) && r[|r| - 1] == NUL
    ensures r[..|r| - 1] == name[..|r| - 1]
  {
    if |name| < bufferSize then name + [NUL] else name[..bufferSize - 1] + [NUL]
  }

  /** Guest memory after a name copy into the buffer at `ptr`. */
  function NameWrite(mem: Bytes, ptr: nat, name: Bytes, bufferSize: nat): (r: Bytes)
    requires ptr + bufferSize <= |mem|
    ensures |r| == |mem|
  {
    if bufferSize == 0 then mem else Splice(mem, ptr, NameRegion(name, bufferSize))
  }

  /** The terminator index as the native code computes it: `bufferSize - 1`
      is evaluated in 32-bit unsigned arithmetic, so for `bufferSize == 0`
      it wraps around. */
  function TerminatorIndexAsWritten(nameLength: nat, bufferSize: nat): (r: nat)
    requires bufferSize < U32_LIMIT
    ensures bufferSize > 0 ==> r < bufferSize && r == Min(nameLength, bufferSize - 1)
  {
    var maxLen := Min(nameLength, bufferSize);
    if maxLen < bufferSize then maxLen else (bufferSize + U32_LIMIT - 1) % U32_LIMIT
  }

  /** With a zero-sized buffer the code as written stores its NUL about four
      gigabytes past the buffer. */
  lemma EmptyBufferTerminatorEscapes(nameLength: nat)
    ensures TerminatorIndexAsWritten(nameLength, 0) == 0xFFFF_FFFF
  {
  }

  /** The copied bytes with NUL stored at the terminator index are exactly
      the name region. */
  lemma TerminatorCompletesName(mem: Bytes, ptr: nat, name: Bytes, bufferSize: nat)
    requires 0 < bufferSize < U32_LIMIT && ptr + bufferSize <= |mem|
    ensures var copied := Splice(mem, ptr, name[..Min(|name|, bufferSize)]);
            copied[ptr + TerminatorIndexAsWritten(|name|, bufferSize) := NUL]
              == NameWrite(mem, ptr, name, bufferSize)
  {
    if |name| < bufferSize {
      assert name[..|name|] == name;
      SpliceStep(mem, ptr, name, NUL);
    } else {
      var kept := name[..bufferSize - 1];
      assert name[..bufferSize] == kept + [name[bufferSize - 1]];
      SpliceStep(mem, ptr, kept, name[bufferSize - 1]);
      SpliceStep(mem, ptr, kept, NUL);
    }
  }

  /** The copy loop and terminator store of a name copy: `Min(|name|,
      bufferSize)` bytes of the name, then NUL at the index the native code
      computes. For an empty buffer nothing is written (the code as written
      stores a NUL out of bounds there, see `TerminatorIndexAsWritten`). */
  method CopyNameToRdram(rdram: array<bv8>, ptr: nat, entryName: Bytes, bufferSize: nat)
    requires bufferSize < U32_LIMIT
    requires ptr + bufferSize <= rdram.Length
    modifies rdram
    ensures rdram[..] == NameWrite(old(rdram[..]), ptr, entryName, bufferSize)
  {
    ghost var before := rdram[..];
    var maxLen := Min(|entryName|, bufferSize);
    for i := 0 to maxLen
      invariant rdram[..] == Splice(before, ptr, entryName[..i])
    {
      rdram[ptr + i] := entryName[i];
      SpliceStep(before, ptr, entryName[..i], entryName[i]);
      assert entryName[..i + 1] == entryName[..i] + [entryName[i]];
    }
    if bufferSize > 0 {
      var terminatorIndex := TerminatorIndexAsWritten(|entryName|, bufferSize);
      rdram[ptr + terminatorIndex] := NUL;
      TerminatorCompletesName(before, ptr, entryName, bufferSize);
    } else {
      assert rdram[..] == before;
    }
  }

  /** Copies the name at `index` of the directory's snapshot into the guest
      buffer at `ptr`, truncating to the buffer and terminating with NUL;
      refuses, writing nothing, when the path is not a directory or the
      index is out of range. */
  method NGetDirEntryNameByIndex(fs: FileSystem, dirPath: Path, index: nat,
                                 rdram: array<bv8>, ptr: nat, bufferSize: nat) returns (ok: bool)
    requires index < U32_LIMIT && bufferSize < U32_LIMIT
    requires ptr + bufferSize <= rdram.Length
    modifies rdram
    ensures ok == (NIsDirectory(fs, dirPath) && index < |SortedEntryNames(fs, Resolve(fs, dirPath))|)
    ensures ok ==> rdram[..] == NameWrite(old(rdram[..]), ptr,
                                          SortedEntryNames(fs, Resolve(fs, dirPath))[index], bufferSize)
    ensures !ok ==> rdram[..] == old(rdram[..])
  {
    var directoryPath := Resolve(fs, dirPath);
    if !IsDirAt(fs, directoryPath) {
      return false;
    }
    var entryNames := GetSortedDirEntryRelativeNames(fs, directoryPath);
    if index < |entryNames| {
      CopyNameToRdram(rdram, ptr, entryNames[index], bufferSize);
      return true;
    }
    return false;
  }

  /** What a name copy promises the guest: nothing outside the buffer
      changes; the name's bytes that fit, except the last buffer byte, are
      copied; NUL stands right after them; and a buffer of exactly
      `|name| + 1` bytes holds the whole name and its NUL. */
  lemma NameWriteStaysInBuffer(mem: Bytes, ptr: nat, name: Bytes, bufferSize: nat)
    requires ptr + bufferSize <= |mem|
    ensures var w := NameWrite(mem, ptr, name, bufferSize);
            (forall k :: 0 <= k < |mem| && !(ptr <= k < ptr + bufferSize) ==> w[k] == mem[k])
            && (bufferSize > 0 ==>
                  (forall i :: 0 <= i < Min(|name|, bufferSize - 1) ==> w[ptr + i] == name[i])
                  && w[ptr + Min(|name|, bufferSize - 1)] == NUL)
            && (bufferSize == |name| + 1 ==> w[ptr..ptr + bufferSize] == name + [NUL])
  {
    if bufferSize > 0 {
      var region := NameRegion(name, bufferSize);
      var w := Splice(mem, ptr, region);
      assert w[ptr..ptr + |region|] == region;
      forall i | 0 <= i < Min(|name|, bufferSize - 1) ensures w[ptr + i] == name[i] {
        assert w[ptr + i] == w[ptr..ptr + |region|][i];
        assert region[i] == region[..|region| - 1][i];
      }
      assert w[ptr + Min(|name|, bufferSize - 1)] == w[ptr..ptr + |region|][|region| - 1];
    }
  }
}
