# Build definitions and the sandbox image format, in Dafny

This project models two small parts of the Apptainer container runtime and
proves properties of them.

1. **Build definitions** (`pkg/build/types/definition.go`). A `Definition` is
   a parsed definition file. It holds a header map, labels, `%files` sections,
   script sections and the raw file text. The model covers three operations:
   - `NewDefinitionFromURI` turns a build URI such as `docker://alpine` into
     the `bootstrap`/`from` header pair.
   - `populateRaw` and its `writeLabelsIfExists`, `writeFilesIfExists` and
     `writeSectionIfExists` helpers write the definition-file text.
   - `NewDefinitionFromJSON` fills in `Raw` when the decoded value has none.
2. **The sandbox image format** (`pkg/image/sandbox.go`). This is the format
   plugin for an image that is a plain directory. Its `initializer` accepts a
   directory and gives the image a single root-filesystem partition.
   `openMode` always picks read-only. `lock` does nothing.

Modules, one file each:

- `Wrappers` (`wrappers.dfy`): `Option` and `Result`.
- `Strings` (`strings.dfy`): the first-occurrence search behind Go's
  `strings.Contains` and `strings.SplitN(s, sep, 2)`, with a declarative
  characterisation of "split at the first occurrence" (`SplitsAtFirst`).
- `BuildTypes` (`build_types.dfy`): the records of definition.go as datatypes.
- `Serialization` (`serialization.dfy`): the definition-file text as pure
  functions (`HeaderText`, `LabelsText`, `FilesText`, `ScriptSection`,
  `RawText`), and the lemmas about that text.
- `Definition` (`definition.dfy`): the Go functions as methods. The shared
  `io.Writer` is the text written so far: each writer takes it and returns
  it extended. Each method is proved to append exactly the text that
  `Serialization` specifies.
- `Images` (`images.dfy`): the `Image` class, `Section`, the image types and
  the usage bits.
- `Sandbox` (`sandbox.dfy`): the sandbox plugin.

**Map iteration order.** Go visits the keys of the `Header` and `Labels`
maps in an order it leaves unspecified. The writer loops model this with a
nondeterministic choice of any key not yet visited (`var k :| k in
remaining`). They return, as a ghost value, the order they took. The text
functions take that order as a parameter, constrained by `IsEnumeration`:
every key exactly once. Every property below holds for every such order. No
order is claimed for the keys other than `bootstrap`.

## Model

| member | source | states |
|---|---|---|
| `Strings.IndexFrom` | pkg/build/types/definition.go:85-88 | the index returned is an occurrence of the pattern, and no earlier index at or after the start is one; `None` means no occurrence at all |
| `Strings.Contains` | pkg/build/types/definition.go:85-88 | `strings.Contains` is true exactly when the pattern occurs at some index |
| `Strings.SplitFirst` | pkg/build/types/definition.go:86-88 | the split succeeds exactly when the separator occurs; the halves satisfy `before + sep + after == s`, with no occurrence of `sep` starting before the end of `before` |
| `Strings.SplitsAtFirstUnique` | pkg/build/types/definition.go:86-88 | at most one pair of halves splits a string at the first occurrence of a separator, so `SplitsAtFirst` determines the header values |
| `Strings.FirstHalfFree` | pkg/build/types/definition.go:85-86 | the part before the first occurrence of a non-empty separator does not contain the separator |
| `Definition.NewDefinitionFromURI` | pkg/build/types/definition.go:83-105 | fails with the prefix error exactly when the URI has neither `://` nor `:`. If it has `://`, `bootstrap` is the text before the first `://` (and holds no `://`), `from` is the rest, and `bootstrap + "://" + from == uri`. With no `://` but a `:`, the same holds for the first `:`. On success the header has exactly the keys `bootstrap` and `from`, every other field has its zero value, and `raw` is the `bootstrap` line, the `from` line and a blank line |
| `Definition.UriDefinitionRaw` | pkg/build/types/definition.go:93-102 | the `raw` of a URI definition equals the `populateRaw` text of that definition for either visiting order of its two headers |
| `Serialization.UriHeaderText` | pkg/build/types/definition.go:169-182 | for a header of just `bootstrap` and `from`, visited in either order, the header block is the `bootstrap` line, then the `from` line, then a blank line |
| `Definition.NewDefinitionFromJSON` | pkg/build/types/definition.go:108-127 | a decode error is returned unchanged. A decoded definition with non-empty `raw` is returned unchanged. One with empty `raw` gets `raw := populateRaw(d)`, for the map orders taken. A returned `raw` is never empty, so filling again changes nothing |
| `Definition.WriteSectionIfExists` | pkg/build/types/definition.go:129-137 | appends exactly `ScriptSection(ident, s)` to the writer |
| `Serialization.ScriptSection` | pkg/build/types/definition.go:129-137 | the section is empty exactly when the script is empty. Otherwise its first line is `%ident` followed by ` args` only when args are non-empty, and it ends with `\n<script>\n\n` |
| `Definition.WriteFilesIfExists` | pkg/build/types/definition.go:139-154 | appends exactly `FilesText(f)`: one block per entry, in list order, each transport as a `\t<src>\t<dst>\n` line in list order |
| `Definition.WriteFilesBlock` | pkg/build/types/definition.go:141-152 | the body of the `writeFilesIfExists` loop, as its own method: appends exactly `FilesBlock(entry)`: nothing for an entry without transports, else the `%files[ args]` line, the transport lines in order, and a blank line |
| `Serialization.FilesBlock` | pkg/build/types/definition.go:141-152 | the block of an entry is empty exactly when it has no transports. Otherwise it starts with `%files` and ends with a blank line |
| `Serialization.FilesText` | pkg/build/types/definition.go:139-154 | all `%files` text together is empty or ends with a newline |
| `Serialization.FilesSkipsEmpty` | pkg/build/types/definition.go:140-141 | entries without transports contribute nothing: dropping them all leaves the text unchanged |
| `Serialization.FilesTextEmptyIff` | pkg/build/types/definition.go:139-154 | no `%files` text is written exactly when no entry lists a transport |
| `Definition.WriteLabelsIfExists` | pkg/build/types/definition.go:156-164 | appends `LabelsText(l, order)` for an order that visits every label key exactly once, and writes nothing exactly when there are no labels |
| `Serialization.LabelsText` | pkg/build/types/definition.go:156-164 | the `%labels` section is empty exactly when there are no labels. Otherwise it starts with `%labels\n` and ends with a blank line |
| `Definition.WriteHeader` | pkg/build/types/definition.go:169-182 | the header part of `populateRaw`, as its own method: appends `HeaderText(h, order)` for an order that visits every header key exactly once, and leaves the writer newline-terminated |
| `Serialization.HeaderKeysEmittedOnce` | pkg/build/types/definition.go:174-181 | the header loop writes a line for every key other than `bootstrap` exactly once, never one for `bootstrap`, and as many lines as there are such keys |
| `Serialization.BootstrapLineFirst` | pkg/build/types/definition.go:169-172 | when a `bootstrap` header exists, the file begins with `bootstrap: <v>\n` |
| `Serialization.HeaderEndsWithBlankLine` | pkg/build/types/definition.go:170-182 | the header block is a lone newline or ends with a blank line |
| `Definition.PopulateRaw` | pkg/build/types/definition.go:168-195 | appends `RawText(d, headerOrder, labelOrder)`: the header block, labels, files, then the sections help, environment, runscript, test, startscript, pre, setup, post. Each of the two orders visits its map's keys exactly once. Whatever the orders, the writer keeps what it held, ends with a newline, and the appended text begins with the `bootstrap` line when there is one |
| `Serialization.RenderedFieldsDetermineRaw` | pkg/build/types/definition.go:184-194 | the text depends only on the header, labels, `%files` entries and the eight rendered scripts. The build-time `test` script, metadata, custom data, app order and `raw` never affect it |
| `Serialization.RawTextNewlineTerminated` | pkg/build/types/definition.go:168-195 | every definition file, even that of an empty definition, is non-empty and ends with a newline |
| `Serialization.BodyTextTerminated` | pkg/build/types/definition.go:184-194 | the text after the header block is empty or ends with a newline |
| `Serialization.EnumerationLength` | pkg/build/types/definition.go:174 | ranging over a map visits as many keys as the map has |
| `Sandbox.RootFsPartition` | pkg/image/sandbox.go:23-30 | the sandbox partition is valid, has ID 1, type SANDBOX and name RootFs. Its allowed usage holds each of RootFsUsage, OverlayUsage and DataUsage, so it is non-empty |
| `Sandbox.Initializer` | pkg/image/sandbox.go:17-32 | succeeds exactly for a directory. On failure it returns the "not a directory image" error and leaves `imageType` and `partitions` unchanged. On success the type is SANDBOX and the partitions are exactly `[RootFsPartition()]`, whose type equals the image's. Only those two fields may change |
| `Sandbox.OpenMode` | pkg/image/sandbox.go:34-36 | returns the read-only flag, never the read-write one, for either value of `writable` |
| `Sandbox.Lock` | pkg/image/sandbox.go:38-40 | always succeeds, and it modifies nothing (it has no `modifies` clause) |

## Left out

- JSON decoding in `NewDefinitionFromJSON` (definition.go:109-117) uses the
  `encoding/json` library. The model takes the decoder's outcome as its
  input. Merging several JSON values from one stream is not modelled. On a
  decode error, Go also returns the partly decoded definition; the model
  returns only the error.
- `Raw` is `[]byte` in Go. Here it is the text written, a `string`. The
  conversion between a Go string and its bytes is not modelled.
  `fmt.Fprintf` with `%s` is plain concatenation.
- Go's map iteration order is modelled as any order (see above). No
  property depends on a particular order of the non-`bootstrap` headers or
  of the labels.
- The declarations of `Image`, `Section`, the image-type constants, the
  usage constants, `RootFs` and `debugError` are in files that are not part
  of this model. The image types are an enumeration. The usages are the
  bits 1, 2 and 4 of a bitset. `RootFs` is a constant string. `os.FileInfo`
  is reduced to a name and an is-directory flag. The `Image` record keeps
  only the fields the sandbox plugin reads or writes, plus path and
  writable.
- The OS values of the open flags are irrelevant. `O_RDONLY` and `O_RDWR`
  are two distinct constants.
- `Sandbox.Lock`: real advisory file locking is OS- and concurrency-bound.
  Probing and dispatch across formats, and the other image formats, are
  not in the modelled files.
- `cmd/internal/cli/term.go` (terminal width) only reads an environment
  variable and issues an `ioctl`.
