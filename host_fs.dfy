/** The host filesystem as the native library sees it through
    `std::filesystem`: an abstract oracle that maps canonical paths to what
    lives there. */
module HostFs {
  import opened Common

  /** A path as the guest passes it: the bytes of a C string, without its NUL. */
  type Path = Bytes

  /** What a canonical path denotes. A directory carries the entries its
      recursive walk yields, as full paths, in the (unspecified) order of
      the host's directory iterator. `Other` is a device, socket or
      anything else that exists but is neither a regular file nor a
      directory. */
  datatype Node = File(contents: Bytes) | Dir(walk: seq<Path>) | Other

  /** A snapshot of the host filesystem: the nodes at canonical paths and
      the canonicalisation (`weakly_canonical`) as an opaque function. */
  datatype FileSystem = FileSystem(nodes: map<Path, Node>, canonical: Path -> Path)

  /** The canonical form every native entry point computes first. */
  function Resolve(fs: FileSystem, path: Path): Path
  {
    fs.canonical(path)
  }

  /** Classification of an already canonical path (`exists`,
      `is_regular_file`, `is_directory`). */
  predicate ExistsAt(fs: FileSystem, c: Path)
  {
    c in fs.nodes
  }

  predicate IsFileAt(fs: FileSystem, c: Path)
  {
    c in fs.nodes && fs.nodes[c].File?
  }

  predicate IsDirAt(fs: FileSystem, c: Path)
  {
    c in fs.nodes && fs.nodes[c].Dir?
  }

  /** `file_size` of a regular file: its exact length in bytes. */
  function FileSizeAt(fs: FileSystem, c: Path): nat
    requires IsFileAt(fs, c)
  {
    |fs.nodes[c].contents|
  }

  /** The walk of a directory; nothing for anything else. */
  function WalkAt(fs: FileSystem, c: Path): seq<Path>
  {
    if IsDirAt(fs, c) then fs.nodes[c].walk else []
  }
}
