/**
 * The directory ("sandbox") image format of pkg/image/sandbox.go: a plain
 * directory tree is one root-filesystem partition, always opened read-only
 * and never locked.
 */
module Sandbox {
  import opened Wrappers
  import opened Images

  /** The open flags `openMode` chooses between; their OS values play no role here. */
  const O_RDONLY: int := 0
  const O_RDWR: int := 2

  /** The one partition of a sandbox image. */
  function RootFsPartition(): (s: Section)
    ensures ValidSection(s) && s.id == 1 && s.name == RootFs && s.sectionType == Sandbox
    ensures HasUsage(s.allowedUsage, RootFsUsage)
    ensures HasUsage(s.allowedUsage, OverlayUsage)
    ensures HasUsage(s.allowedUsage, DataUsage)
  {
    Section(0, 0, 1, RootFs, Sandbox, RootFsUsage | OverlayUsage | DataUsage)
  }

  /**
   * `initializer`: accepts a directory, making `img` a sandbox image with its
   * single root-filesystem partition; anything else is rejected and `img` is
   * left as it was.
   */
  method Initializer(img: Image, fi: FileInfo) returns (err: Option<Error>)
    modifies img`imageType, img`partitions
    ensures err.None? <==> fi.isDir
    ensures err.Some? ==> err.value == DebugError("not a directory image")
    ensures err.Some? ==> img.imageType == old(img.imageType) && img.partitions == old(img.partitions)
    ensures err.None? ==> img.imageType == Sandbox && img.partitions == [RootFsPartition()]
    ensures err.None? ==> img.SingleFormat()
  {
    if fi.isDir {
      img.imageType := Sandbox;
    } else {
      return Some(DebugError("not a directory image"));
    }
    img.partitions := [Section(0, 0, 1, RootFs, Sandbox, RootFsUsage | OverlayUsage | DataUsage)];
    return None;
  }

  /** `openMode`: a sandbox is opened read-only whatever mode is asked for. */
  function OpenMode(writable: bool): (flag: int)
    ensures flag == O_RDONLY && flag != O_RDWR
  {
    O_RDONLY
  }

  /** `lock`: nothing to lock; always succeeds and changes nothing. */
  method Lock(img: Image) returns (err: Option<Error>)
    ensures err.None?
  {
    return None;
  }
}
