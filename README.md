# QDFileLoader filesystem bridge, modelled in Dafny

QDFileLoader lets an N64 recompilation mod (the guest) read files and list
directories on the host. The guest cannot touch the host filesystem or host
memory. The native library (`nativelib/src/qdfileloader.cpp`) answers
queries on canonical paths. It copies file contents and directory entry
names into guest memory (`rdram`) within sizes the guest declares. The
guest facade (`mod/src/qdfileloader.c`) turns these answers into a closed
status taxonomy, allocates guest buffers sized to the results, and joins
path segments with '/'.

The model has six modules:

- `Common` (common.dfy): bytes, the 32-bit guest integer width, and
  `Splice`, a run of bytes stored into memory.
- `HostFs` (host_fs.dfy): the host filesystem as an oracle. It is a map from
  canonical path to `File(contents) | Dir(walk) | Other`, plus an opaque
  canonicalisation function.
- `LexOrder` (lex_order.dfy): the byte-wise order of `std::string`, and a
  sort whose result is proved to be the unique sorted permutation.
- `NativeLib` (native_lib.dfy): the native exports and the bounded copy engine.
  Guest memory is an `array<bv8>`; a guest buffer is an index `ptr` into it
  plus the size the guest declares.
- `GuestMod` (guest_mod.dfy): the facade's status logic, `loadFile` and
  `getDirEntryNameByIndex`. Each C out-parameter is modelled as its value
  before the call and its value after it.
- `PathJoin` (path_join.dfy): `QDFL_getCombinedPath`, with both of its loops.

The guest is 32-bit. `u32`, `size_t` and `unsigned long` all wrap at 2^32,
and every integer the host returns is narrowed to 32 bits. The model makes
that narrowing explicit.

The facade is modelled as written, including these behaviours:

- `QDFL_isFile` asks the native existence query (mod/src/qdfileloader.c:82).
  So `GetFileSize` returns OK for every existing path and never returns
  `EXPECTED_FILE`. A directory gets size 0. Loading a directory therefore
  gets `READ_FILE`, because the copy refuses anything that is not a regular
  file.
- `QDFL_MAX_FILE_SIZE` is never consulted, so `FILE_TOO_LARGE` is never
  returned. A regular file of 4 GiB or more reaches the guest with its size
  truncated to 32 bits, and its load fails with `READ_FILE`.
- The copy detects a file that grew between the size query and the read, but
  not one that shrank. A shrunk file loads as OK. Only the bytes actually
  read are written, so the rest of the allocated buffer is never stored to.
  A file that cannot be opened leaves a stream that yields no bytes (only a
  stream in the bad state is refused), so its copy succeeds and writes
  nothing.
- `entryLength = length + 1` is computed in 32-bit arithmetic. It is
  positive unless the name's length, narrowed to 32 bits, is 2^32 − 1. In that case no buffer is
  allocated, and the call returns OK with `*out` NULL.

In three places the code itself shows an intent it does not carry out.
The model follows what the code does:

- The `EXPECTED_FILE` enumerator and its log message ("Expected a file, but
  ... is not a file", mod/src/qdfileloader.c:18, 55-56) show that a file
  check was intended. No path reports it.
- `QDFL_MAX_FILE_SIZE` and its comment about the 512 MiB of guest RAM
  (mod/src/qdfileloader.c:7-9) show that a 64 MiB size limit was intended.
  The constant is never used.
- In the native name copy, the comment "make room for null byte" and the
  `maxLen < bufferSize` guard (nativelib/src/qdfileloader.cpp:132, 140)
  show that the NUL is meant to land inside the buffer. For a buffer of 0
  bytes it does not (see Findings).

## Model

| member | source | states |
|---|---|---|
| `Common.U32` | nativelib/src/qdfileloader.cpp:86 | narrowing to the guest's 32 bits (also `_return<uint32_t>` at lines 109 and 164): the result is below 2^32, never larger than the input, and equal to it when the input already fits |
| `Common.Splice` | nativelib/src/qdfileloader.cpp:41-43 | storing a run of bytes at an index changes exactly that range of guest memory and nothing else |
| `Common.SpliceStep` | nativelib/src/qdfileloader.cpp:41-43 | storing one more byte right after a stored run extends the run (the step of every copy loop) |
| `LexOrder.LexLe` | nativelib/src/qdfileloader.cpp:57 | the byte-wise order of `std::string`'s `operator<` (or equal); its properties are the lemmas below |
| `LexOrder.Insert` | nativelib/src/qdfileloader.cpp:57 | one step of the sort that stands for `std::sort`; see `InsertPermutes` and `InsertKeepsSorted` |
| `LexOrder.Sort` | nativelib/src/qdfileloader.cpp:57 | the sort that stands for `std::sort`; see `SortIsSortedPermutation` and `SortedPermutationIsUnique` |
| `LexOrder.LexLeMatchesFirstDifference` | nativelib/src/qdfileloader.cpp:57 | the recursive byte order used for sorting equals the reference definition "prefix, or smaller at the first differing byte" |
| `LexOrder.LexLeRefl` | nativelib/src/qdfileloader.cpp:57 | the name order is reflexive |
| `LexOrder.LexLeTotal` | nativelib/src/qdfileloader.cpp:57 | any two names are ordered one way or the other |
| `LexOrder.LexLeAntisymmetric` | nativelib/src/qdfileloader.cpp:57 | two names ordered both ways are equal |
| `LexOrder.LexLeTransitive` | nativelib/src/qdfileloader.cpp:57 | the name order is transitive |
| `LexOrder.InsertPermutes` | nativelib/src/qdfileloader.cpp:57 | inserting a name adds exactly that name to the multiset |
| `LexOrder.InsertKeepsSorted` | nativelib/src/qdfileloader.cpp:57 | inserting into a sorted list keeps it sorted |
| `LexOrder.SortIsSortedPermutation` | nativelib/src/qdfileloader.cpp:57 | the sorted list is sorted, is a permutation of its input, and has the same length |
| `LexOrder.SortedHeadIsLeast` | nativelib/src/qdfileloader.cpp:57 | the first element of a sorted list is no later than any of its elements |
| `LexOrder.SortedPermutationIsUnique` | nativelib/src/qdfileloader.cpp:57 | two sorted permutations of the same names are identical, so entry indices are well defined |
| `LexOrder.SortIgnoresOrder` | nativelib/src/qdfileloader.cpp:50-57 | the sorted listing does not depend on the order the walk yields entries in |
| `LexOrder.AddedNameLandsInPlace` | nativelib/src/qdfileloader.cpp:48-60 | adding an entry to the walk inserts it at its sorted position and keeps every other name in order |
| `LexOrder.ExampleListingOrder` | nativelib/src/qdfileloader.cpp:48-60 | a walk of "b.txt", "a/c.txt", "a.txt" lists as "a.txt", "a/c.txt", "b.txt" |
| `NativeLib.NIsExist` | nativelib/src/qdfileloader.cpp:66-68 | `exists` on the canonical path: true exactly when a regular file, a directory or another node lives there |
| `NativeLib.NIsFile` | nativelib/src/qdfileloader.cpp:70-72 | `is_regular_file` on the canonical path: true only for an existing node that is not a directory |
| `NativeLib.NIsDirectory` | nativelib/src/qdfileloader.cpp:74-76 | `is_directory` on the canonical path: true only for an existing node that is not a regular file |
| `NativeLib.CopySucceeds` | nativelib/src/qdfileloader.cpp:14-39 | the copy goes ahead only for a regular file whose size the guest was told fits the buffer; a failed read never succeeds |
| `NativeLib.NGetFileSize` | nativelib/src/qdfileloader.cpp:78-87 | 0 for anything but a regular file, otherwise the file size truncated to 32 bits (the exact size below 4 GiB) |
| `NativeLib.CopyToRdramBuffer` | nativelib/src/qdfileloader.cpp:11-46 | succeeds exactly when the path is a regular file no larger than the buffer, the read did not fail, and the bytes read fit. On success the bytes read are stored at the buffer and nothing else changes; on failure guest memory is untouched |
| `NativeLib.ConsistentReadCopiesWholeFile` | nativelib/src/qdfileloader.cpp:11-46 | a file that fits and reads back as classified is copied, and the bytes of the buffer past its contents keep their old values |
| `NativeLib.EntryPrefix` | nativelib/src/qdfileloader.cpp:52-53 | on a POSIX host, what a walked entry starts with: the directory plus '/', or the directory alone when it already ends in '/' (a root); it always ends in '/' and starts with the directory |
| `NativeLib.Relative` | nativelib/src/qdfileloader.cpp:53 | a walked entry `dir/name` becomes `name`: prefixing the directory and its separator gives the entry back |
| `NativeLib.RootEntryLosesOnlyRoot` | nativelib/src/qdfileloader.cpp:53 | an entry of the root `/`, such as `/bin`, becomes `bin` |
| `NativeLib.RelativeNames` | nativelib/src/qdfileloader.cpp:52-54 | one relative name per walked entry, in walk order |
| `NativeLib.SortedEntryNames` | nativelib/src/qdfileloader.cpp:48-60 | the snapshot has one name per walked entry, and is empty for anything that is not a directory |
| `NativeLib.SnapshotIsSortedWalk` | nativelib/src/qdfileloader.cpp:48-60 | the snapshot is sorted, is a permutation of the walked relative names, is as long as the walk, and equals the sort of any rearrangement of them |
| `NativeLib.GetSortedDirEntryRelativeNames` | nativelib/src/qdfileloader.cpp:48-60 | returns the snapshot: empty for a non-directory, otherwise sorted and a permutation of the walked relative names |
| `NativeLib.NGetNumDirEntries` | nativelib/src/qdfileloader.cpp:154-165 | 0 for a non-directory, otherwise the number of walked entries narrowed to 32 bits |
| `NativeLib.NGetDirEntryNameLengthByIndex` | nativelib/src/qdfileloader.cpp:97-114 | the 32-bit length of the snapshot's name at the index when the path is a directory and the index is in range, 0 otherwise |
| `NativeLib.CountMatchesSnapshot` | nativelib/src/qdfileloader.cpp:154-165 | the count equals the length of the sorted name list the index queries use, and a non-directory has an empty list |
| `NativeLib.NameRegion` | nativelib/src/qdfileloader.cpp:133-146 | the bytes a name copy leaves: min(len + 1, capacity) bytes, a prefix of the name, ending in NUL |
| `NativeLib.NameWrite` | nativelib/src/qdfileloader.cpp:133-146 | a name copy leaves guest memory the same size, with the name region at the buffer, or nothing written for an empty buffer |
| `NativeLib.TerminatorIndexAsWritten` | nativelib/src/qdfileloader.cpp:139-146 | for a non-empty buffer the terminator lands at min(len, capacity − 1), inside the buffer |
| `NativeLib.EmptyBufferTerminatorEscapes` | nativelib/src/qdfileloader.cpp:143 | with capacity 0 the computed terminator index is 0xFFFFFFFF |
| `NativeLib.TerminatorCompletesName` | nativelib/src/qdfileloader.cpp:133-146 | the copied min(len, capacity) bytes, with NUL stored at the computed terminator index, are exactly the name region |
| `NativeLib.CopyNameToRdram` | nativelib/src/qdfileloader.cpp:133-146 | for a non-empty buffer, the copy loop and the terminator store leave memory as the name write describes; for an empty buffer nothing is written (the corrected behaviour, see Findings) |
| `NativeLib.NGetDirEntryNameByIndex` | nativelib/src/qdfileloader.cpp:116-152 | succeeds exactly for a directory and an in-range index, and then performs the name write. Otherwise it writes nothing |
| `NativeLib.NameWriteStaysInBuffer` | nativelib/src/qdfileloader.cpp:133-146 | nothing at or beyond the buffer's end (or before it) changes. The copied bytes equal the name, NUL follows them, and a buffer of len + 1 bytes holds the whole name and NUL |
| `PathJoin.StringInfo` | mod/src/qdfileloader.c:172-175 | a segment and its measured length, one table entry per argument |
| `PathJoin.Join` | mod/src/qdfileloader.c:211-226 | the reference join: segments with one '/' between neighbours and none at the ends; its properties are the lemmas below |
| `PathJoin.TotalLengthSnoc` | mod/src/qdfileloader.c:188-198 | adding a segment adds its length to the running total |
| `PathJoin.JoinLength` | mod/src/qdfileloader.c:181-206 | the joined path is sum of lengths + (count − 1) bytes long |
| `PathJoin.JoinSnoc` | mod/src/qdfileloader.c:211-226 | appending a segment appends '/' and the segment |
| `PathJoin.Split` | mod/src/qdfileloader.c:219-225 | splitting at separators yields at least one segment |
| `PathJoin.SplitSegment` | mod/src/qdfileloader.c:219-225 | a separator-free run followed by a path splits into that run prefixed to the path's first piece |
| `PathJoin.SplitUndoesJoin` | mod/src/qdfileloader.c:211-226 | for segments without '/', splitting the joined path gives the segments back, so there is exactly one separator between neighbours and none at the ends |
| `PathJoin.RelativeUndoesJoin` | nativelib/src/qdfileloader.cpp:52-53 | an entry built as the directory's entry prefix followed by a name, taken relative to the directory, gives the name back; for a directory not ending in '/' that entry is the join of the directory and the name |
| `PathJoin.WrittenIsJoinedPrefix` | mod/src/qdfileloader.c:211-226 | after i segments the fill loop has written the join of the first i segments, plus '/' unless i is the last |
| `PathJoin.WrittenGrows` | mod/src/qdfileloader.c:209-226 | the written prefix only grows, so the cursor stays at or below its final position |
| `PathJoin.MeasureSegments` | mod/src/qdfileloader.c:183-198 | records each segment with its length and returns the sum of the lengths |
| `PathJoin.StoreAt` | mod/src/qdfileloader.c:214-217 | stores the segment at the cursor, advances the cursor by its length, and leaves every byte before the old cursor and from the new cursor on unchanged |
| `PathJoin.GetCombinedPath` | mod/src/qdfileloader.c:177-233 | allocates exactly sum of lengths + (count − 1) + 1 bytes, never moves the cursor past the last byte, and returns the segments joined by single '/' followed by NUL |
| `GuestMod.Status` | mod/src/qdfileloader.c:12-22 | the nine outcomes of a facade call, in declaration order |
| `GuestMod.Code` | mod/src/qdfileloader.c:12-22 | each status has its enumerator value below 9, and 0 is OK only |
| `GuestMod.CodeIsInjective` | mod/src/qdfileloader.c:12-22 | distinct statuses have distinct values |
| `GuestMod.IsExist` | mod/src/qdfileloader.c:77-79 | 1 exactly when the path exists, 0 otherwise |
| `GuestMod.IsFile` | mod/src/qdfileloader.c:81-83 | 1 exactly when the path exists (not when it is a regular file), 0 otherwise |
| `GuestMod.IsDirectory` | mod/src/qdfileloader.c:85-87 | 1 exactly when the path is a directory, 0 otherwise |
| `GuestMod.IsFileAcceptsEveryExistingPath` | mod/src/qdfileloader.c:81-83 | an existing path that is not a regular file still answers 1 |
| `GuestMod.GetFileSize` | mod/src/qdfileloader.c:89-103 | PATH_NO_EXIST exactly for a missing path, with `*out` untouched. Otherwise OK with `*out` = the native size |
| `GuestMod.GetFileSizeOfExistingPath` | mod/src/qdfileloader.c:89-103 | every existing path gets OK (never EXPECTED_FILE). A directory gets 0, and a regular file below 4 GiB gets its exact size |
| `GuestMod.LoadStatus` | mod/src/qdfileloader.c:105-128 | only OK, PATH_NO_EXIST or READ_FILE. PATH_NO_EXIST exactly for a missing path, OK exactly when the copy into a buffer of the reported size succeeds |
| `GuestMod.LoadFile` | mod/src/qdfileloader.c:105-128 | a failed size query is passed through with `*out` untouched, and a failed copy sets `*out` to NULL. On OK `*out` is a fresh buffer of the reported size that starts with the bytes read |
| `GuestMod.LoadIgnoresSizeLimit` | mod/src/qdfileloader.c:9 | a file above 64 MiB (and below 4 GiB) that reads back as classified loads with OK, never FILE_TOO_LARGE |
| `GuestMod.LoadOfConsistentFile` | mod/src/qdfileloader.c:105-128 | a regular file below 4 GiB that reads back as classified loads with OK into a buffer of exactly its size |
| `GuestMod.LoadOfUnloadablePath` | mod/src/qdfileloader.c:105-128 | an existing non-file, or a file of 4 GiB or more, loads with READ_FILE |
| `GuestMod.GetNumDirEntries` | mod/src/qdfileloader.c:130-144 | PATH_NO_EXIST, else EXPECTED_DIR, else OK with `*out` = the snapshot's length. `*out` is written only on OK |
| `GuestMod.EntryLength` | mod/src/qdfileloader.c:157 | the requested size is the native length + 1 in 32-bit arithmetic. For an in-range name shorter than 2^32 − 1 bytes it is exactly len + 1, and it is 0 only when the length is 2^32 − 1 |
| `GuestMod.OutOfRangeAsksForOneByte` | mod/src/qdfileloader.c:157-165 | an out-of-range index requests a one-byte buffer |
| `GuestMod.NameStatus` | mod/src/qdfileloader.c:146-170 | PATH_NO_EXIST exactly for a missing path or an index past the snapshot, EXPECTED_DIR exactly for an existing non-directory, OK exactly for a directory and an in-range index |
| `GuestMod.GetDirEntryNameByIndex` | mod/src/qdfileloader.c:146-170 | reports NameStatus, with `*out` untouched unless OK. On OK `*out` is a fresh string holding the name's prefix and NUL (the whole name and NUL below 2^32 − 1 bytes), or NULL when the length + 1 wraps |
| `GuestMod.AllocateEntryName` | mod/src/qdfileloader.c:161-162 | allocates the requested size; the host copy succeeds exactly for a directory and an in-range index, and then the buffer holds the name's prefix and NUL (the whole name below 2^32 − 1 bytes) |
| `GuestMod.EntryBufferHoldsName` | mod/src/qdfileloader.c:157-162 | a name copy into a buffer of the 32-bit `length + 1` bytes leaves a prefix of the name and NUL, and the whole name whenever the length does not wrap |
| `GuestMod.NameWriteFillsBuffer` | mod/src/qdfileloader.c:157-162 | a name copy into a whole buffer of at most len + 1 bytes leaves it holding a prefix of the name followed by NUL |

## Left out

- Status logging (`logStatus`, `recomp_printf`) is human-readable output only. It includes a floating-point MiB figure.
- The real `std::filesystem` calls and the `std::ifstream` read are left out. The filesystem is an oracle (`HostFs.FileSystem`) and canonicalisation is an opaque function. Its idempotence is not stated.
- Each facade call sees one filesystem snapshot. The model does not capture the filesystem changing between the native calls that one facade call makes. The one exception is the file read, which is a separate parameter.
- `NativeLib.EntryPrefix`: host paths are modelled as POSIX byte strings, with '/' as the separator and as the root. On a Windows host `recursive_directory_iterator` builds entries with `path::operator/`, which inserts `\` (0x5C), and roots are drive roots such as `C:\`. The names `fs::relative(...).u8string()` returns then carry `\` (`a\c.txt`), which changes both the names and their sort order (`\` sorts after `0`, `/` before it). The model does not cover that host.
- `fs::relative` is modelled lexically: the directory and its separator are stripped from each walked entry. Symbolic links inside the walk are not modelled.
- `NativeLib.Relative`: the strip works on bytes, not on path elements. It agrees with `fs::relative` on the entries the directory iterator builds (the entry prefix followed by a name). It differs for doubled separators (`//b` relative to `/` is `/b`, not `b`) and for paths outside the directory (returned unchanged, not as `../…`). The iterator yields neither. On a Windows host the strip also misses entries separated by `\` (see `NativeLib.EntryPrefix` above).
- The host filesystem never fails in the model. The `std::filesystem` calls made without an `error_code` throw `filesystem_error` on a permission error, on an unreadable subdirectory met by `recursive_directory_iterator` (nativelib/src/qdfileloader.cpp:52, 162), or on a file removed between `is_regular_file` and `file_size` (:18, :86). Such an exception escapes the `extern "C"` export, and the model has no outcome for it.
- Opening the raw path rather than the canonical one in the copy is a host I/O detail. The bytes the stream yields are a parameter (`NativeLib.ReadResult`).
- The export wrapper `QDFL_N_copyToBuffer` (nativelib/src/qdfileloader.cpp:89-95) only unpacks arguments. The facade model calls `CopyToRdramBuffer` directly.
- The recomp ABI glue (`_arg`, `_arg_string`, `_return`, `PTR`, `MEM_B` address translation, import/export macros) is left out. `MEM_B` stores are element updates of the guest-memory array. The host's assumption that a guest buffer lies inside guest memory is a precondition (`ptr + bufferSize <= rdram.Length`).
- `recomp_alloc` and `recomp_free` are modelled as allocation of a fresh array. Allocation failure is not modelled. Neither are the buffers left unreleased on failure paths and the freeing of the segment table.
- The C variable argument list is a sequence of segments (at least one). Each segment is the bytes before its NUL. With `count == 0` the code computes `finalPathLen = 0 + (0 − 1) + 1`, which is 0 in the 32-bit `size_t`. It allocates 0 bytes and then stores NUL at `combinedPath[finalPathLen - 1]`, index 0xFFFFFFFF, which is one byte before the allocation on the 32-bit guest (mod/src/qdfileloader.c:203-208, 228). The model requires at least one segment and does not model that store.
- `std::sort` is modelled by an insertion sort on a sequence, not in place. Only its result matters, and that result is proved unique.
- `QDFL_N_getNumDirEntries` counts with a second walk; the model counts the same snapshot's walk.
- `FILE_TOO_LARGE`, `FILE_NO_EXIST`, `DIR_NO_EXIST` and `UNKNOWN` are never produced by the code. They appear only in the status type.
- `GuestMod.GetDirEntryNameByIndex`: the guest's `unsigned long` index is 32 bits wide, so the model takes it as a number below 2^32 (`requires index < U32_LIMIT`), which is the range of that type and excludes no guest call.
- `NativeLib.CopyNameToRdram`: for a buffer of 0 bytes the code stores NUL at `bufferPtr + 0xFFFFFFFF`, outside the buffer and outside guest memory. An array cannot hold that store, so this member models the corrected behaviour and writes nothing. The wrapped index itself is modelled by `NativeLib.TerminatorIndexAsWritten` (see Findings).
- `NativeLib.NGetDirEntryNameByIndex`: through `CopyNameToRdram`, an in-range index with a buffer of 0 bytes is modelled as no write. The code's store outside the buffer is not modelled. The facade never passes a buffer of 0 bytes.
- `PathJoin.GetCombinedPath`: the length arithmetic is unbounded. The 32-bit wrap-around of `finalPathLen` is not modelled. The sum of lengths is not bounded by guest memory, because a caller can pass the same long string many times. A sum of 2^32 or more would wrap, and the code would then allocate too small a buffer and write past it. The model's buffer always has the unwrapped size.

## Findings

| source | as written | input that shows it | evidently intended | confidence | as-written member | corrected member |
|---|---|---|---|---|---|---|
| nativelib/src/qdfileloader.cpp:139-146 | when the name does not fit, the terminator index is `bufferSize - 1` in 32-bit unsigned arithmetic, and NUL is stored there | an in-range index with `bufferSize == 0`: the index wraps to 0xFFFFFFFF and NUL is stored about 4 GiB past the buffer | a zero-capacity copy writes nothing, and NUL is only ever stored inside the buffer | high; not executed | `NativeLib.TerminatorIndexAsWritten`, `NativeLib.EmptyBufferTerminatorEscapes` | `NativeLib.CopyNameToRdram`, `NativeLib.NameWriteStaysInBuffer` |

The facade always passes a buffer of at least one byte, and skips the
native call when the wrapped size is 0, so the guest facade never reaches
this case.
