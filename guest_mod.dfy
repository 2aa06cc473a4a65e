/** The guest facade (the mod): classification exports, and operations that
    classify the outcome of native calls into the closed status taxonomy,
    writing their out-parameter only on success. A C out-parameter is
    modelled by passing its value before the call and returning its value
    after it. */
module GuestMod {
  import opened Common
  import opened HostFs
  import opened NativeLib

  /** The status taxonomy; the C enumerators are numbered in this order. */
  datatype Status =
    | Ok
    | ErrUnknown
    | ErrPathNoExist
    | ErrFileNoExist
    | ErrDirNoExist
    | ExpectedFile
    | ExpectedDir
    | ErrFileTooLarge
    | ErrReadFile

  /** The value of each status on the wire, shared with the mod's public
      header. */
  function Code(s: Status): (c: nat)
    ensures c < 9
    ensures c == 0 <==> s == Ok
  {
    match s
    case Ok => 0
    case ErrUnknown => 1
    case ErrPathNoExist => 2
    case ErrFileNoExist => 3
    case ErrDirNoExist => 4
    case ExpectedFile => 5
    case ExpectedDir => 6
    case ErrFileTooLarge => 7
    case ErrReadFile => 8
  }

  /** Different statuses never share a code. */
  lemma CodeIsInjective(s: Status, t: Status)
    requires Code(s) == Code(t)
    ensures s == t
  {
  }

  /** The intended limit on a single file load, 64 MiB. It is declared but
      no operation consults it. */
  const MAX_FILE_SIZE: nat := 67108864

  /** A status with the value of the out-parameter after the call. */
  datatype Reply<T> = Reply(status: Status, out: T)

  function IsExist(fs: FileSystem, path: Path): (r: int)
    ensures r == 0 || r == 1
    ensures r == 1 <==> NIsExist(fs, path)
  {
    if NIsExist(fs, path) then 1 else 0
  }

  /** Meant to ask whether the path is a regular file, but asks the native
      existence query instead. */
  function IsFile(fs: FileSystem, path: Path): (r: int)
    ensures r == 0 || r == 1
    ensures r == 1 <==> NIsExist(fs, path)
  {
    if NIsExist(fs, path) then 1 else 0
  }

  function IsDirectory(fs: FileSystem, path: Path): (r: int)
    ensures r == 0 || r == 1
    ensures r == 1 <==> NIsDirectory(fs, path)
  {
    if NIsDirectory(fs, path) then 1 else 0
  }

  /** A directory (or a device) answers 1 to `IsFile`. */
  lemma IsFileAcceptsEveryExistingPath(fs: FileSystem, path: Path)
    requires NIsExist(fs, path) && !NIsFile(fs, path)
    ensures IsFile(fs, path) == 1
  {
  }

  /** `PATH_NO_EXIST` for a missing path; otherwise OK, with the native
      size, since the "is it a file" check passes for every existing path.
      `*out` is written only on OK. */
  function GetFileSize(fs: FileSystem, path: Path, out: nat): (r: Reply<nat>)
    ensures r.status == Ok || r.status == ErrPathNoExist
    ensures r.status == ErrPathNoExist <==> !NIsExist(fs, path)
    ensures r.status != Ok ==> r.out == out
    ensures r.status == Ok ==> r.out == NGetFileSize(fs, path) && r.out < U32_LIMIT
  {
    if IsExist(fs, path) == 0 then Reply(ErrPathNoExist, out)
    else if IsFile(fs, path) == 0 then Reply(ExpectedFile, out)
    else Reply(Ok, NGetFileSize(fs, path))
  }

  /** The size query never reports `EXPECTED_FILE`: a directory gets OK and
      size 0, while a regular file below 4 GiB gets OK and its exact size. */
  lemma GetFileSizeOfExistingPath(fs: FileSystem, path: Path, out: nat)
    requires NIsExist(fs, path)
    ensures GetFileSize(fs, path, out).status == Ok
    ensures NIsDirectory(fs, path) ==> GetFileSize(fs, path, out).out == 0
    ensures NIsFile(fs, path) && FileSizeAt(fs, Resolve(fs, path)) < U32_LIMIT ==>
              GetFileSize(fs, path, out).out == FileSizeAt(fs, Resolve(fs, path))
  {
  }

  /** The status `LoadFile` reports: that of the size query when it is not
      OK, otherwise whether the copy into a buffer of that size succeeds. */
  function LoadStatus(fs: FileSystem, path: Path, read: ReadResult): (s: Status)
    ensures s == Ok || s == ErrPathNoExist || s == ErrReadFile
    ensures s == ErrPathNoExist <==> !NIsExist(fs, path)
    ensures s == Ok <==> NIsExist(fs, path) && CopySucceeds(fs, path, read, NGetFileSize(fs, path))
  {
    var size := GetFileSize(fs, path, 0);
    if size.status != Ok then size.status
    else if CopySucceeds(fs, path, read, size.out) then Ok
    else ErrReadFile
  }

  /** Loads a whole file into a fresh guest buffer of the reported size.
      A failed size query is passed through with `*out` untouched; a
      failed copy sets `*out` to NULL; on OK `*out` is the buffer, which
      starts with the bytes read (all of them, in the usual case where
      the read matches the size). */
  method LoadFile(fs: FileSystem, path: Path, read: ReadResult, out: array?<bv8>)
    returns (status: Status, result: array?<bv8>)
    ensures status == LoadStatus(fs, path, read)
    ensures status == ErrPathNoExist ==> result == out
    ensures status == ErrReadFile ==> result == null
    ensures status == Ok ==>
              result != null && fresh(result)
              && result.Length == GetFileSize(fs, path, 0).out
              && |read.bytes| <= result.Length
              && result[..|read.bytes|] == read.bytes
  {
    var size := GetFileSize(fs, path, 0);
    if size.status != Ok {
      return size.status, out;
    }
    var fileSize := size.out;
    var file := new bv8[fileSize];
    var copied := CopyToRdramBuffer(file, fs, path, read, 0, fileSize);
    if copied {
      return Ok, file;
    } else {
      return ErrReadFile, null;
    }
  }

  /** No load ever reports `FILE_TOO_LARGE`: a file above the 64 MiB limit
      that reads back as it was classified loads successfully. */
  lemma LoadIgnoresSizeLimit(fs: FileSystem, path: Path)
    requires NIsFile(fs, path)
    requires MAX_FILE_SIZE < FileSizeAt(fs, Resolve(fs, path)) < U32_LIMIT
    ensures LoadStatus(fs, path, ReadBytes(fs.nodes[Resolve(fs, path)].contents)) == Ok
  {
  }

  /** A regular file below 4 GiB that reads back as classified loads, and
      the buffer then holds exactly the file. */
  lemma LoadOfConsistentFile(fs: FileSystem, path: Path)
    requires NIsFile(fs, path)
    requires FileSizeAt(fs, Resolve(fs, path)) < U32_LIMIT
    ensures var contents := fs.nodes[Resolve(fs, path)].contents;
            LoadStatus(fs, path, ReadBytes(contents)) == Ok
            && GetFileSize(fs, path, 0).out == |contents|
  {
  }

  /** Loading something that exists but is not a regular file reports
      `READ_FILE` (never `EXPECTED_FILE`); so does a file of 4 GiB or more,
      whose size reaches the guest truncated. */
  lemma LoadOfUnloadablePath(fs: FileSystem, path: Path, read: ReadResult)
    requires NIsExist(fs, path)
    requires !NIsFile(fs, path) || FileSizeAt(fs, Resolve(fs, path)) >= U32_LIMIT
    ensures LoadStatus(fs, path, read) == ErrReadFile
  {
  }

  /** `PATH_NO_EXIST`, else `EXPECTED_DIR`, else OK with the entry count,
      which is the length of the directory's snapshot; `*out` is written
      only on OK. */
  function GetNumDirEntries(fs: FileSystem, dirPath: Path, out: nat): (r: Reply<nat>)
    ensures r.status == Ok || r.status == ErrPathNoExist || r.status == ExpectedDir
    ensures r.status == ErrPathNoExist <==> !NIsExist(fs, dirPath)
    ensures r.status == ExpectedDir <==> NIsExist(fs, dirPath) && !NIsDirectory(fs, dirPath)
    ensures r.status != Ok ==> r.out == out
    ensures r.status == Ok ==>
              r.out == |SortedEntryNames(fs, Resolve(fs, dirPath))| % U32_LIMIT
  {
    CountMatchesSnapshot(fs, dirPath);
    if IsExist(fs, dirPath) == 0 then Reply(ErrPathNoExist, out)
    else if IsDirectory(fs, dirPath) == 0 then Reply(ExpectedDir, out)
    else Reply(Ok, NGetNumDirEntries(fs, dirPath))
  }

  /** Buffer size the facade asks for: the native name length plus one,
      in the guest's 32-bit arithmetic. */
  function EntryLength(fs: FileSystem, dirPath: Path, index: nat): (r: nat)
    ensures r < U32_LIMIT
    ensures var names := SortedEntryNames(fs, Resolve(fs, dirPath));
            NIsDirectory(fs, dirPath) && index < |names| && |names[index]| < U32_LIMIT - 1
            ==> r == |names[index]| + 1
    ensures r == 0 <==> NGetDirEntryNameLengthByIndex(fs, dirPath, index) == U32_LIMIT - 1
    ensures r > 0 ==> r == NGetDirEntryNameLengthByIndex(fs, dirPath, index) + 1
  {
    // `length + 1` in 32 bits: the length is below 2^32, so only its
    // largest value wraps
    var length := NGetDirEntryNameLengthByIndex(fs, dirPath, index);
    if length == U32_LIMIT - 1 then 0 else length + 1
  }

  /** Out-of-range indices (and a directory without entries) ask for a
      one-byte buffer, which the native copy then refuses. */
  lemma OutOfRangeAsksForOneByte(fs: FileSystem, dirPath: Path, index: nat)
    requires index >= |SortedEntryNames(fs, Resolve(fs, dirPath))|
    ensures EntryLength(fs, dirPath, index) == 1
  {
  }

  /** The status `GetDirEntryNameByIndex` reports: `PATH_NO_EXIST` for a
      missing path or an index past the snapshot, `EXPECTED_DIR` for an
      existing non-directory, OK otherwise. */
  function NameStatus(fs: FileSystem, dirPath: Path, index: nat): (s: Status)
    ensures s == Ok || s == ErrPathNoExist || s == ExpectedDir
    ensures s == ErrPathNoExist <==>
              !NIsExist(fs, dirPath)
              || (NIsDirectory(fs, dirPath) && index >= |SortedEntryNames(fs, Resolve(fs, dirPath))|)
    ensures s == ExpectedDir <==> NIsExist(fs, dirPath) && !NIsDirectory(fs, dirPath)
    ensures s == Ok <==> NIsDirectory(fs, dirPath) && index < |SortedEntryNames(fs, Resolve(fs, dirPath))|
  {
    if IsExist(fs, dirPath) == 0 then ErrPathNoExist
    else if IsDirectory(fs, dirPath) == 0 then ExpectedDir
    else if EntryLength(fs, dirPath, index) == 0 then Ok
    else if index < |SortedEntryNames(fs, Resolve(fs, dirPath))| then Ok
    else ErrPathNoExist
  }

  /** Copies the name at `index` of the directory's snapshot into a fresh
      guest string of the requested size. `*out` is written only on OK.
      Only when the name's length, narrowed to 32 bits, is `2^32 - 1` does
      the 32-bit `length + 1` wrap to 0, and then `*out` is NULL. */
  method GetDirEntryNameByIndex(fs: FileSystem, dirPath: Path, index: nat, out: array?<bv8>)
    returns (status: Status, result: array?<bv8>)
    requires index < U32_LIMIT
    ensures status == NameStatus(fs, dirPath, index)
    ensures status != Ok ==> result == out
    ensures status == Ok ==>
              var name := SortedEntryNames(fs, Resolve(fs, dirPath))[index];
              (result == null <==> U32(|name|) == U32_LIMIT - 1)
              && (result != null ==>
                    fresh(result) && result.Length == U32(|name|) + 1
                    && result[..] == name[..result.Length - 1] + [NUL])
              && (|name| < U32_LIMIT - 1 ==> result != null && result[..] == name + [NUL])
  {
    if IsExist(fs, dirPath) == 0 {
      return ErrPathNoExist, out;
    }
    if IsDirectory(fs, dirPath) == 0 {
      return ExpectedDir, out;
    }
    var entryLength := EntryLength(fs, dirPath, index);
    var entryName: array?<bv8> := null;
    if entryLength > 0 {
      var copied, buffer := AllocateEntryName(fs, dirPath, index, entryLength);
      if !copied {
        return ErrPathNoExist, out;
      }
      entryName := buffer;
    }
    return Ok, entryName;
  }

  /** Allocates the requested `length + 1` bytes and asks the host to copy
      the name at `index` into them. The copy succeeds exactly for an
      in-range index of a directory, and then the buffer holds a prefix of
      the name and a NUL, the whole name unless its length wraps. */
  method AllocateEntryName(fs: FileSystem, dirPath: Path, index: nat, entryLength: nat)
    returns (copied: bool, buffer: array<bv8>)
    requires index < U32_LIMIT
    requires entryLength == EntryLength(fs, dirPath, index) > 0
    ensures fresh(buffer) && buffer.Length == entryLength
    ensures copied == (NIsDirectory(fs, dirPath) && index < |SortedEntryNames(fs, Resolve(fs, dirPath))|)
    ensures copied ==>
              var name := SortedEntryNames(fs, Resolve(fs, dirPath))[index];
              entryLength == U32(|name|) + 1
              && buffer[..] == name[..entryLength - 1] + [NUL]
              && (|name| < U32_LIMIT - 1 ==> buffer[..] == name + [NUL])
  {
    buffer := new bv8[entryLength];
    ghost var initial := buffer[..];
    copied := NGetDirEntryNameByIndex(fs, dirPath, index, buffer, 0, entryLength);
    if copied {
      ghost var name := SortedEntryNames(fs, Resolve(fs, dirPath))[index];
      assert entryLength == U32(|name|) + 1;
      EntryBufferHoldsName(initial, name, entryLength);
    }
  }

  /** What an OK name copy leaves in the facade's buffer of `length + 1`
      bytes (32-bit): a prefix of the name and a NUL, and the whole name
      whenever the length does not wrap. */
  lemma EntryBufferHoldsName(initial: Bytes, name: Bytes, entryLength: nat)
    requires entryLength == |initial| == U32(|name|) + 1
    ensures NameWrite(initial, 0, name, entryLength) == name[..entryLength - 1] + [NUL]
    ensures |name| < U32_LIMIT - 1 ==> NameWrite(initial, 0, name, entryLength) == name + [NUL]
  {
    NameWriteFillsBuffer(initial, name, entryLength);
    if |name| < U32_LIMIT - 1 {
      assert name[..entryLength - 1] == name;
    }
  }

  /** A name copy into a whole buffer of at most `|name| + 1` bytes leaves
      the buffer holding a prefix of the name and a NUL. */
  lemma NameWriteFillsBuffer(mem: Bytes, name: Bytes, bufferSize: nat)
    requires 0 < bufferSize == |mem| <= |name| + 1
    ensures NameWrite(mem, 0, name, bufferSize) == name[..bufferSize - 1] + [NUL]
  {
    var region := NameRegion(name, bufferSize);
    assert |region| == bufferSize;
    assert Splice(mem, 0, region) == region;
  }
}
