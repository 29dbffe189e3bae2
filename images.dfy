/**
 * The image record that format plugins fill in (package `image`). The file
 * that declares `Image`, `Section` and their constants (pkg/image/image.go)
 * is not part of this model: the image type is an enumeration, the usage
 * flags are distinct bits of a bitset, and the partition name is a constant.
 */
module Images {

  /** The image formats a path can hold; `Unknown` is the zero value before probing. */
  datatype ImageType = Unknown | Squashfs | Ext3 | Sandbox | Sif | EncryptSquashfs

  /** A set of allowed usages, one bit per usage. */
  type Usage = bv8

  const RootFsUsage: Usage := 1
  const OverlayUsage: Usage := 2
  const DataUsage: Usage := 4

  /** The name given to a root-filesystem partition. */
  const RootFs: string := "!ROOTFS"

  /** `usage` has the bit of `flag` set. */
  predicate HasUsage(usage: Usage, flag: Usage) {
    usage & flag != 0
  }

  /** A partition of an image; `offset` and `size` stay zero for a directory. */
  datatype Section = Section(
    offset: nat,
    size: nat,
    id: nat,
    name: string,
    sectionType: ImageType,
    allowedUsage: Usage)

  /** A partition is usable when it has a positive ID and at least one allowed usage. */
  predicate ValidSection(s: Section) {
    s.id > 0 && s.allowedUsage != 0
  }

  /** What a plugin learns from `os.FileInfo`: only whether the path is a directory. */
  datatype FileInfo = FileInfo(name: string, isDir: bool)

  /** The error a plugin returns when the path is not of its format. */
  datatype Error = DebugError(message: string)

  /** An image being probed: plugins update its type and partitions in place. */
  class Image {
    var path: string
    var writable: bool
    var imageType: ImageType
    var partitions: seq<Section>

    /**
     * A single-format image: every partition is valid, has the image's own
     * type, and no two partitions share an ID.
     */
    ghost predicate SingleFormat()
      reads this
    {
      && (forall i :: 0 <= i < |partitions| ==>
            ValidSection(partitions[i]) && partitions[i].sectionType == imageType)
      && (forall i, j :: 0 <= i < j < |partitions| ==> partitions[i].id != partitions[j].id)
    }
  }
}
