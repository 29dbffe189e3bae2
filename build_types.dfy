/**
 * The records of a build definition (pkg/build/types/definition.go): what a
 * definition file says about how to build a container image. Go's maps become
 * Dafny maps, slices become sequences, and embedded structs become named fields.
 */
module BuildTypes {

  newtype byte = x: int | 0 <= x < 256

  /** Any script section: its arguments on the `%section` line and its body. */
  datatype Script = Script(args: string, script: string)

  /** One file to copy into the container. */
  datatype FileTransport = FileTransport(src: string, dst: string)

  /** One `%files` section: its arguments and the transports it lists, in order. */
  datatype Files = Files(args: string, files: seq<FileTransport>)

  /** Scripts that end up in the built image. */
  datatype ImageScripts = ImageScripts(
    help: Script,
    environment: Script,
    runscript: Script,
    test: Script,
    startscript: Script)

  /** Scripts that are only used while building. */
  datatype Scripts = Scripts(pre: Script, setup: Script, post: Script, test: Script)

  /** Build-time data: the `%files` sections and the build scripts. */
  datatype Data = Data(files: seq<Files>, scripts: Scripts)

  /** Data that ends up in the image: metadata, labels and image scripts. */
  datatype ImageData = ImageData(
    metadata: seq<byte>,
    labels: map<string, string>,
    imageScripts: ImageScripts)

  /** A whole build definition; `raw` holds its definition-file text. */
  datatype Definition = Definition(
    header: map<string, string>,
    imageData: ImageData,
    buildData: Data,
    customData: map<string, string>,
    raw: string,
    appOrder: seq<string>)

  const EmptyScript := Script("", "")

  /** Go's zero value of `Definition`: every map, slice and string empty. */
  const ZeroDefinition := Definition(
    map[],
    ImageData([], map[], ImageScripts(EmptyScript, EmptyScript, EmptyScript, EmptyScript, EmptyScript)),
    Data([], Scripts(EmptyScript, EmptyScript, EmptyScript, EmptyScript)),
    map[],
    "",
    [])
}
