# The Detonater, modelled in Dafny

The Detonater (`mod.ts`) makes Minecraft mod jars smaller. For one jar, `compressJar`:

1. hashes the jar's bytes with MD5;
2. extracts the archive into a scratch workspace named after that digest, unless the workspace already exists;
3. walks the workspace with `searchMod`:
   - JSON and `.mcmeta` files are re-printed with two-space indentation;
   - PNG files are handed to `oxipng`;
   - nested jars are recompressed by a recursive call and written back stored, with no compression;
4. packs the workspace back into a new archive with `rezip`;
5. serialises the archive: DEFLATE level 9 for a top-level jar, STORE for a nested one, MIME type `application/java-archive`.

This project models that core:
- the filesystem becomes a `Disk` object holding a map from locations to contents and a set of directories;
- archives are values (`Archive.Content`), kept in the form jszip reads them in;
- the recompressor is a `Detonater` object whose methods follow `compressJar`, `unzip`, `rezip`, `searchMod`, `normalizeJson` and `optimizePng` loop by loop and branch by branch.

Modules:
- `Strings`: character replacement, split/join, first and last index.
- `Paths`: the Windows long-path shim, how a path string resolves to a location, the parent directory `unzip` computes, and the relative name `rezip` computes.
- `Archive`: entries, contents and serialisation options.
- `FileSystem`: the Deno calls the core makes, as methods of `Disk`.
- `Scratch`: digest-named workspaces.
- `Workspace`: what extraction writes and what repacking reads back, stated as functions, and the round trip between them.
- `Recompression`: the `Detonater` class.

## Model

A *valid* name below is one `Paths.ValidName` accepts: not empty, no leading, trailing or doubled `/`, no back-slash, no segment that is `.` or `..`, and no segment that ends in `.` or a space (Windows trims those). Apart from letter case and the other Windows and macOS name rules listed under "## Left out", such a name spells its location below the workspace in one way only.

Locations are strings. `Paths.Resolve` reads the `.` and `..` segments of a location as the operating system does. The model's `unzip` is the corrected one of "## Findings": it refuses an entry whose name has a `.` or `..` segment, with the error `UnsafeEntry`. The scratch directory has no such segment either (`Scratch.ScratchRoot`). So every location the model's extraction creates resolves to itself, and the frames below (what stays unchanged, where new files and directories lie) speak about the locations the operating system reaches.

| member | source | states |
|---|---|---|
| Strings.Utf16Length | mod.ts:65 | JavaScript's `.length` counts UTF-16 code units: at least one and at most two per character. |
| Paths.LongPathShim | mod.ts:65-69 | The path is rewritten if and only if the platform is Windows and its `.length`, in UTF-16 code units, is 260 or more. |
| Paths.LongPathShimShape | mod.ts:65-69 | A rewritten path starts with `\\?\`, contains no `/`, and after the prefix is the original path with every `/` turned into `\`. |
| Paths.LogicalOfShim | mod.ts:93-98 | The shimmed path names the same location as the plain one, so the shim only affects how the call is spelled. |
| Paths.LogicalOfNative | mod.ts:110-123 | A path yielded by the walk, spelled with the native separator, resolves back to the location it was found at. |
| Paths.NormalisedNative | mod.ts:84 | Turning back-slashes into `/` gives the same string for the walked spelling as for the stored one. |
| Paths.LogicalUnder | mod.ts:63 | Whatever the entry name, `workspace/name` resolves to the workspace or to a location below it, under this model's resolution, which does not resolve `.` and `..`. |
| Paths.ParentNameIsPrefix | mod.ts:61-62 | Split on `/`, drop the last piece, join: the result is the name up to its last `/`, or empty when there is none. |
| Paths.ParentOfEntry | mod.ts:61-74 | For a valid name, the directory ensured at line 73 is exactly the parent directory of the file written at line 74. |
| Paths.RelativeName | mod.ts:88 | The relative name is what follows `root/`, one character shorter than the path with the root removed (empty for the root itself). |
| Paths.RepackNameInverts | mod.ts:84-100 | Repack's relative name of `root/name` is `name` on every platform, with back-slashes read as `/`. |
| Paths.EntryPathTidy | mod.ts:63 | For a valid name (no empty, `.` or `..` segment), `workspace/name` is already the location it names. |
| Strings.ReplaceCharAt | mod.ts:68 | `replaceAll` of one character: every occurrence of `from` becomes `to` and every other character stays. |
| Strings.ReplaceCharRemoves | mod.ts:68 | After `replaceAll("/", "\\")` no `/` is left. |
| Strings.JoinSplit | mod.ts:61-62 | Joining the pieces of a split on a separator gives the string back. |
| Strings.SplitJoin | mod.ts:61-62 | The other direction: splitting the join of at least one separator-free piece gives the pieces back. |
| Paths.ResolveNoDot | mod.ts:63 | A location with no `.` or `..` segment is the location the operating system reaches from it. |
| Paths.LogicalJoined | mod.ts:63 | Below a root in workspace form, `root/name` names the root, a `/`, and the name with back-slashes read as `/` on Windows, less trailing separators. |
| Paths.SafeJoin | mod.ts:63 | For a dot-free root in workspace form and a name the corrected `unzip` accepts, `root/name` names a dot-free location, which the operating system reaches as spelled. |
| Paths.SafeParent | mod.ts:61-62 | The split/pop/join parent of an accepted name is accepted too. |
| FileSystem.AncestorsNoDot | mod.ts:71-73 | Every directory that a recursive `mkdir` or `ensureDir` makes above a dot-free location is dot-free and resolves to itself. |
| Workspace.ValidSafe | mod.ts:60-76 | A valid entry name (a directory's once its trailing `/` is dropped) passes the check of the corrected `unzip`, so the round trip never meets a refused entry. |
| Archive.SerialisationOptions | mod.ts:48-53 | STORE if and only if the jar is nested; no level exactly when STORE; otherwise level 9; MIME type `application/java-archive` in every case. |
| Archive.EntryHeight | mod.ts:120-122 | Every entry of an archive nests less deeply than the archive, which bounds the recursion. |
| Scratch.WorkspaceOfUnder | mod.ts:39 | Every location under `tempDir/<digest>` belongs to that workspace. |
| Workspace.ExtractedSource | mod.ts:60-76 | Every extracted location holds the content of a file entry whose name leads there. |
| Workspace.ExtractedUnder | mod.ts:63 | Extraction writes nothing outside the workspace, under this model's resolution, which does not resolve `.` and `..`. |
| Workspace.ExtractedLast | mod.ts:60-76 | A file entry that no later entry overwrites is extracted with its own content. |
| Workspace.ExtractedHas | mod.ts:60-76 | When no two file entries share a name and every name is valid (a directory's once its trailing `/` is dropped), every file entry is found at `workspace/name` with its own content. |
| Workspace.DistinctPaths | mod.ts:63 | Distinct valid names (no empty, `.` or `..` segment) extract to distinct locations. |
| Workspace.ExtractedHeight | mod.ts:120-122 | Every extracted file nests less deeply than the archive it came from. |
| Workspace.RepackSkipsRoot | mod.ts:86-89 | Repack records no entry for the workspace root and a directory marker for every other directory below it. |
| Workspace.RepackedAdd | mod.ts:82-104 | Walking one more location adds exactly that location's entry, if it has one. |
| Workspace.ReadBackPath | mod.ts:91-100 | A file extracted under a valid name is read back, through the shim, at the location it was written to and under the same name. |
| Workspace.RepackExtractedFile | mod.ts:91-103 | A file extracted under a valid name becomes an entry with the original name and the current content. |
| Workspace.RepackExtracted | mod.ts:82-104 | In a workspace freshly extracted from entries with valid names and distinct file names, every walked location repacks without error: a file as an entry of the archive, a directory as an empty marker. |
| Workspace.MadeDirsSource | mod.ts:60-76 | Every directory extraction makes is the directory of some entry, or one of its ancestors. |
| Workspace.MadeDirsHas | mod.ts:60-76 | The directory of every entry, and each of its ancestors, is made. |
| Workspace.MadeBy | mod.ts:61-73 | A directory below the workspace made for a valid entry is `workspace/m` for a valid `m` that the entry marks: a prefix of its name ending before a `/`, or a directory entry's own name. |
| Workspace.MakesMarks | mod.ts:61-73 | Conversely, whatever a valid entry marks is made as a directory when that entry is extracted. |
| Workspace.RepackMarker | mod.ts:86-89 | A directory `workspace/m` with a valid `m` is repacked as the empty marker named `m`. |
| Workspace.RoundTripFiles | mod.ts:58-107 | For entries with valid names and distinct file names, extract then repack: no read fails, every file entry comes back with its name and content, and every other entry is an empty directory marker. |
| Workspace.RoundTripDirs | mod.ts:58-107 | For entries with valid names, extract then repack: the workspace exists once there is an entry, and the directory markers are exactly the names the entries mark. |
| Workspace.RoundTrip | mod.ts:58-107 | For entries with valid names and distinct file names, extract then repack, both halves: no read fails; the file entries come back exactly, with names and contents; the directory markers are exactly the directory entries and the `/`-terminated prefixes of entry names, all empty. |
| Paths.BaseNameSuffix | mod.ts:111-120 | A suffix with no separator ends `file.name`, the last component of a path, exactly when it ends the path. |
| Recompression.NativeSuffixes | mod.ts:111-120 | A walked path has the same `.json`, `.mcmeta`, `.png` and `.jar` suffixes as the location it names. |
| Recompression.NameSuffixes | mod.ts:111-120 | `file.name` of a walked path has the same `.json`, `.mcmeta`, `.png` and `.jar` suffixes as the location it names. |
| Recompression.JarSuffixOnly | mod.ts:111-120 | A `.jar` name is neither a JSON nor a PNG name, so it reaches the jar branch. |
| Recompression.EntryLocations | mod.ts:61-74 | An entry's shimmed path names `workspace/name`, which lies in the workspace. Making either directory of lines 71 and 73 makes the workspace. For a valid name, the line-73 directory is the written file's parent. |
| Recompression.AncestorsBelow | mod.ts:71-73 | Every ancestor of a location in a workspace is the scratch directory, one of its ancestors, or a location in that workspace. |
| Recompression.NewDirsBelow | mod.ts:71-73 | Once the scratch directory and its ancestors exist, making a location in a workspace with its ancestors adds directories only in that workspace. |
| Recompression.EntryResolves | mod.ts:63-74 | For a name with no `.` or `..` segment, the location written at line 74 and the directory ensured at line 73 each resolve to themselves. |
| Recompression.MadeDirUnder | mod.ts:61-73 | The directory an entry makes lies in the workspace, and making it makes the workspace too. |
| Recompression.MadeDirResolves | mod.ts:61-73 | For a name with no `.` or `..` segment, the directory an entry makes and each of its ancestors resolve to themselves. |
| Recompression.MadeInWorkspace | mod.ts:58-77 | Extraction adds directories only in the workspace, and it makes the workspace as soon as there is an entry. When the corrected `unzip` accepts every name, every directory extraction makes resolves to itself. |
| Recompression.WriteBackFrame | mod.ts:120-123 | Writing the recompressed jar back over its own location alters no other file and adds none, and putting the old content back gives the state the jar was repacked from. |
| Recompression.RewriteFrame | mod.ts:112-119 | Rewriting the file at one location in place keeps every location and every other file. |
| Recompression.FreshExtraction | mod.ts:39-42 | Extraction into a workspace that does not exist yet writes only new files, all in a new workspace, and nothing that existed before lies below it. When the corrected `unzip` accepts every name, every extracted location resolves to itself. |
| Recompression.ExtractedResolves | mod.ts:60-76 | Entries the corrected `unzip` accepts are written only at locations that resolve to themselves. |
| Recompression.ZipSlip | mod.ts:60-75 | The `unzip` as written, for a scratch directory `/a/c`, an archive `/a/b` and a file entry `../../b`: the path written at line 74 lies textually in the workspace `/a/c/<digest>`, but the operating system resolves it to `/a/b`, the archive itself, outside the workspace. The corrected check refuses that name. |
| Recompression.RezipStep | mod.ts:82-104 | One turn of the repack loop keeps the collected entries equal to the entries of the locations walked so far. |
| Recompression.Detonater.WorkspaceFor | mod.ts:37-39 | The workspace of an archive is a digest-named directory in stored form. |
| Recompression.Detonater.NormalizeJson | mod.ts:128-136 | A file that parses is replaced by its normal form. A failed read or parse leaves every file as it was. |
| Recompression.Detonater.OptimizePng | mod.ts:138-143 | The file is replaced by what `oxipng` makes of it; a path that is not a file leaves everything unchanged. |
| Recompression.Detonater.Rezip | mod.ts:79-107 | Succeeds if and only if the workspace exists and no read below it fails. The collected entries are then exactly the repack set of the workspace. |
| Recompression.Detonater.RezipEntry | mod.ts:83-104 | One walked location gives the entry, or the error, the repack function assigns to it. |
| Recompression.Detonater.UnzipNext | mod.ts:60-75 | One turn of the loop takes the state from the extraction of the first `i` entries to that of the first `i + 1`. On failure, the files are unchanged and the directories lie between the two. An entry with a `.` or `..` segment fails with `UnsafeEntry`, and an accepted one extends the accepted prefix. With valid names, the turn never fails for a missing parent and never refuses an entry. |
| Recompression.Detonater.Unzip | mod.ts:58-77 | The new files are the extraction of the first `n` entries, all of them on success. On success the new directories are exactly those the entries make; on failure, those of the first `n` entries and at most part of the next one's. New directories lie only in the workspace, and success with at least one entry makes the workspace exist. An empty archive changes nothing. The first `n` entries pass the corrected `unzip`, and a failure at an entry that does not pass it is `UnsafeEntry` for that entry. Every extracted location, and on success every new directory, resolves to itself. With valid names, a write never fails for a missing parent and no entry is refused. |
| Recompression.Detonater.UnzipEntry | mod.ts:61-75 | The corrected loop body. A name with a `.` or `..` segment is refused with `UnsafeEntry`, and nothing changes. Any other entry is extracted as `ExtractEntry` states, never fails with `UnsafeEntry`, and every directory it makes and the file it writes resolve to themselves. |
| Recompression.Detonater.ExtractEntry | mod.ts:61-75 | The loop body for an accepted name. A directory entry makes its location with every ancestor and leaves the files as they were. A file entry makes its parent directory with every ancestor and writes its content at `workspace/name`. A failure leaves the files unchanged and adds at most some of those directories; it is `NotADirectory`, `IsADirectory` or `MissingParent`. New directories lie in the workspace, and success makes the workspace exist. With a valid name, the write never meets a missing parent. |
| Recompression.Detonater.UnzipFile | mod.ts:72-74 | The parent from split/pop/join is made, unshimmed, with every ancestor, and the content is written at `workspace/name` through the shim. A failure leaves the files unchanged and is `NotADirectory`, `IsADirectory` or `MissingParent`. With a valid name, the write never meets a missing parent. |
| Recompression.Detonater.WriteEntry | mod.ts:74 | Once the parent directory exists, the content is written at `workspace/name` or the files stay as they were, and the failure is `IsADirectory` or `MissingParent`; no directory changes. With a valid name, the write never meets a missing parent. |
| Recompression.Detonater.CompressJar | mod.ts:35-56 | Files that existed before are never altered. New files and new directories lie only in workspaces that did not exist before. A missing or non-archive input fails and changes nothing. A cache hit changes nothing on disk, so neither extraction nor `searchMod` ran. Success returns the repack set of the workspace, serialised with the options the nested flag selects. |
| Recompression.Detonater.CompressAgain | mod.ts:40-47 | After a successful call, a second call on the same jar changes nothing on disk and returns the same entries with the same options. |
| Recompression.Detonater.SearchMod | mod.ts:109-126 | On success, every file of the workspace holds what its suffix dispatch makes of it, and every nested jar's workspace exists. Nothing outside the workspace is altered, new files and directories lie only in new workspaces, and a missing workspace fails with nothing changed. |
| Recompression.Detonater.SearchStep | mod.ts:110-125 | One turn of the walk dispatches the location it takes and keeps the invariant over the locations still to visit. |
| Recompression.Detonater.Dispatch | mod.ts:111-124 | The branch is chosen on `file.name`. Only a `.jar` can fail. On success the location's file holds what its suffix dispatch makes of it; for a jar, its entries are the repack set of the nested workspace, in the state before the write. Every other file is unchanged, and new files and directories lie only in new workspaces. |
| Recompression.Detonater.Treat | mod.ts:111-119 | Branching on `file.name`: JSON and mcmeta files are normalised, PNG files optimised, and other files left as they were. No location appears or disappears. |
| Recompression.Detonater.RecompressNested | mod.ts:120-123 | On success, the jar is replaced by an archive stored with no compression, and the nested jar's workspace exists. The new archive's entries are the repack set of that workspace, in the state just before the write. Every other existing file is unchanged, and new files and directories lie only in new workspaces. |
| Recompression.Detonater.WriteBack | mod.ts:123 | Writing the recompressed jar over a location that is still a file succeeds, replaces that file only, and makes no directory. |

## Left out

- The command line and the batch loop over a folder (mod.ts:14-33) are not part of this model. They only call `compressJar` and write its result elsewhere.
- Creating the scratch directory (mod.ts:9) is modelled as the `tempDir` field. `Detonater.Valid` requires it to exist, with its ancestors, in stored form. All console logging is dropped.
- The scratch directory is taken spelled with `/`, also on Windows, where `Deno.makeTempDir` returns a path with back-slashes. `Paths.Logical` reads both separators alike, and the replacements of mod.ts:84-85 turn both spellings into the same string. So the mixed-separator workspace `${tempDir}/${digest}` of mod.ts:39 names the same directory, and every walked path gives the same entry name. The replacement of the root at mod.ts:85 is therefore the identity in this model.
- MD5 is the field `md5`, an arbitrary function to 32 lower-case hex digits. The proofs hold for every such function, collisions included.
- jszip is modelled by the form it reads an archive into (`Archive.Content`), not by bytes. `generateAsync` is modelled as pairing the collected entries with the options. The `createFolders` flag (mod.ts:102) and jszip's keying of entries by name are not modelled.
- `readZip` failing on bytes that are not an archive is the `NotAZip` error for content that is not a `Jar`. The model reads the jar once, where the source reads it a second time inside `readZip`.
- `JSON.parse` followed by `JSON.stringify(_, null, 2)` is the field `normalise`, with `None` for a parse failure. Whether it is idempotent depends on that function and is not stated.
- `oxipng` is the field `oxipng`, a function on contents. Its exit status is ignored, as in the source, and the process is not modelled.
- `async`/`await` is modelled as sequential execution, which is how the source awaits every call. Concurrent runs on the same digest are not modelled.
- Windows' MAX_PATH limit is not modelled. The `ensureDir` of mod.ts:73 is not shimmed in the source, but in the model it cannot fail for its length.
- Entry names with a `.` or `..` segment are not valid names, and the lemmas that require valid names say nothing about them. The corrected `unzip` refuses such names (see "## Findings"). `Paths.Logical` does not resolve these segments, so the confinement that `Paths.LogicalUnder` and `Workspace.ExtractedUnder` state holds for this model's resolution only. `Paths.Resolve` gives the operating system's resolution, and it reads only `.` and `..`.
- Recompression.EntryLocations: "lies in the workspace" is stated on the spelled location. That the operating system reaches the same location is stated only for names without `.` or `..` segments, by `Recompression.EntryResolves`. For other names the source as written escapes the workspace (`Recompression.ZipSlip`).
- Recompression.MadeDirUnder: the directory lies in the workspace as spelled. That it resolves there is stated only for names without `.` or `..` segments, by `Recompression.MadeDirResolves`. The source as written makes directories outside the workspace for a name such as `../d/`.
- Recompression.MadeInWorkspace: the directories lie in the workspace as spelled. That they resolve there is stated only when every name passes the corrected `unzip`. The source as written makes directories outside the workspace for a `..` entry.
- Recompression.FreshExtraction: the extracted locations are fresh as spelled, and they resolve to themselves only when every name passes the corrected `unzip`. The source as written overwrites an existing file for an entry such as `../../in.jar` (`Recompression.ZipSlip`).
- Recompression.Detonater.Unzip: it states the loop with the corrected `unzip`, which refuses names with a `.` or `..` segment. The source as written extracts them, and can write outside the workspace (`Recompression.ZipSlip`).
- Recompression.Detonater.UnzipEntry: it states the corrected loop body. The source as written has no check, so a name with a `..` segment makes directories and writes a file outside the workspace.
- Recompression.Detonater.UnzipFile: its clause that new directories lie in the workspace is stated on spelled locations. It is the operating system's only for an accepted name, which is all `UnzipEntry` passes on.
- Recompression.Detonater.CompressJar: its frame (no existing file altered, new files and directories only in new workspaces) is stated for the corrected `unzip`. That the spelled locations are the operating system's follows from `Recompression.Detonater.Unzip`'s resolution clauses. It is not carried through this contract. With the source as written, an entry `../../in.jar` overwrites the input itself.
- Recompression.Detonater.CompressAgain: it is stated for the corrected `unzip`. With the source as written, a first call that extracts over its own input makes the second call a cache miss that changes the disk.
- Recompression.Detonater.SearchMod: its frame is stated for the corrected `unzip` of the nested jars it recompresses. With the source as written, a nested jar with a `..` entry writes outside its workspace.
- Recompression.Detonater.SearchStep: the frame its invariant carries holds for the corrected `unzip` only, as for `SearchMod`.
- Recompression.Detonater.Dispatch: its frame holds for the corrected `unzip` only. With the source as written, a nested jar with a `..` entry writes outside its workspace.
- Recompression.Detonater.RecompressNested: its frame holds for the corrected `unzip` only, as for `Dispatch`.
- Other name rules of Windows and macOS are not modelled: reserved device names (`CON`, `NUL`, `COM1`, ...), `:` alternate data streams, characters Windows refuses in names, and Unicode normalisation. A valid name excludes a segment ending in `.` or a space, which Win32 trims. The corrected `unzip` still accepts such a name, and on Windows the file lands at the trimmed location.
- Paths.Logical: runs of `/` inside a path are not collapsed into one. Only a trailing separator is dropped. Valid names contain no such runs, so the round trip is unaffected.
- Locations are compared as exact strings. On a case-insensitive filesystem (the Windows and macOS defaults), names that differ only in case are one file. The model treats them as two.
- Workspace.DistinctPaths: holds only on a case-sensitive filesystem, for names free of the Windows and macOS rules above. Two valid names that differ only in case, or only in Unicode normalisation on macOS, would extract to the same file. A name such as `a:s` writes a stream of `a` on Windows. The same limit applies to `Workspace.ExtractedHas`, `Workspace.RoundTripFiles` and `Workspace.RoundTrip`, whose distinct-names requirement compares names exactly.
- `FileSystem.Disk` fails only for structural reasons: a directory in the way, a missing parent, or a file where a directory is needed. Running out of space, permission errors, locked files and interrupted writes are not modelled.
- Recompression.Detonater.WriteBack: `r.Ok?` holds only because the model's writes cannot fail for space or permissions. In the source such a failure of the write at mod.ts:123 propagates to the caller.
- Recompression.Detonater.NormalizeJson: the write of mod.ts:131 always replaces the file in the model. In the source a failed write is caught by the `try`/`catch` and may leave the file truncated.
- jszip names a directory entry with a trailing `/`. `Workspace.DirPart` drops it when a directory entry's name is judged. A repacked directory marker is named without the `/` that jszip's `addFile` with `dir: true` appends (mod.ts:87-89). The round trip therefore matches a directory entry `a/` with the marker `a`.
- The walk is a snapshot of the workspace taken when it starts, visited in any order. Files that the recursion adds lie in other workspaces, never in the one being walked. The `exts` filter of mod.ts:110 is covered by the branch that leaves other files untouched.
- `file.name` is modelled as the walked path after its last native separator (`Paths.BaseName`). The walk's own computation of the name is not modelled.
- The workspace is treated as complete as soon as its directory exists, as the code does (mod.ts:40). A run that fails part way leaves a workspace that later calls reuse, and the model keeps that behaviour rather than an atomic completion marker.
- Recompression.Detonater.CompressJar: on a cache miss, the entries returned are not related to the archive's own entries, because `searchMod` rewrites files in between. `Workspace.RoundTrip` states extraction followed by repacking on its own.
- Recompression.Detonater.CompressJar: for an archive with no entries on a cache miss, only failure is stated. The workspace is never created, so the walk fails.
- Recompression.Detonater.SearchMod: on failure, only the frame is stated (what stays unchanged and where new files may lie). Which files were already treated is not stated.
- Recompression.Detonater.SearchMod: for a nested jar, the contract states that the file is a stored archive and that its workspace exists. The entries that `Dispatch` and `RecompressNested` relate to the nested workspace are not carried through the walk, because later steps of the walk may change that state.
- Recompression.Detonater.Unzip: the number of entries extracted before a failure is a ghost out-parameter. The source has no such count.

## Findings

The model uses the corrected `unzip`: `Recompression.Detonater.UnzipEntry` checks each name before extracting it.

| source | as written | input that shows it | evidently intended | confidence | as-written member | corrected member |
|---|---|---|---|---|---|---|
| mod.ts:60-75 | `unzip` joins each entry name to the workspace unchecked (line 63), ensures its parent (line 73) and writes it (line 74), so a `..` segment climbs out of the workspace | scratch directory `/tmp/detonater_a` and archive `/tmp/in.jar` holding one file entry `../../in.jar`: line 74 writes `/tmp/detonater_a/<md5>/../../in.jar`, which is `/tmp/in.jar`, the archive being recompressed | extraction stays in the workspace: an entry whose name has a `.` or `..` segment is refused | high; not executed | Recompression.ZipSlip | Recompression.Detonater.UnzipEntry |
