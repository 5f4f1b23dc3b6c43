# Decompress screen of Simple File Manager, modelled in Dafny

This project models the logic of the file manager's decompress screen
(`DecompressActivity`). The screen shows the contents of a ZIP archive as a
browsable tree, and it extracts the archive under a folder the user chooses.
The model has three parts, one per piece of real logic:

1. **Listing.** `fillAllListItems` reads every entry of the archive into a
   flat list of items (path, display name, directory flag, modification time).
   `getFolderItems` picks out the children of a folder, directories first and
   then by name.
2. **Navigation.** The field `currentPath` is the folder being browsed.
   Tapping a directory opens it. Back goes to the parent folder, or leaves the
   screen when it is already at the root `""`.
3. **Extraction.** `decompressTo` walks the entries once. For each entry it
   ensures the root folder `destination/<title without extension>` exists,
   skipping the entry when that fails. It skips directory entries. For a file
   entry it copies the bytes through a 1024-byte buffer into a new output
   file.

Modules, in dependency order:

- `Paths` holds the string rules: the parent of a path, its last segment,
  Kotlin's `removeSuffix("/")`, `trimEnd('/')` and `substringBeforeLast(".")`,
  and the output path. It also holds the back-navigation lemmas.
- `Zip` models the archive as a forward-only stream of entries. This is the
  role `java.util.zip.ZipInputStream` plays. It is a class whose `NextEntry`
  and `Read` move through given contents. `Read` hands out between 1 and
  `buffer.Length` bytes, as many as the decoder chooses.
- `Storage` models the filesystem as a class. It knows which directories exist, which can be created and which outputs can be opened. It also
  keeps the log of output files opened, with the chunks written into each.
- `Listing` holds the list item, the parent filter and a stable insertion
  sort. It proves what `getFolderItems` promises.
- `Extraction` is a pure specification of what extraction writes (`Run`,
  `ExtractOutcome`). It proves lemmas about that specification.
- `Decompress` holds the screen as a class with the fields `allFiles`,
  `currentPath` and `shownItems`. Its methods are the source's loops and state
  updates. Each is proved against the functions of `Listing` and `Extraction`.

The commons-library helpers are not part of this model. They are taken to
behave as follows:

- `getFilenameFromPath` is the text after the last `/`.
- `getParentPath` is the text before the last `/`. It equals removing the
  suffix `"/" + last segment`.
- `getDoesFilePathExist`, `createDirectorySync` and `getFileOutputStreamSync`
  are read from the abstract filesystem.

A `ZipEntry` is a directory exactly when its name ends with `/`.

Where the code's behaviour is worth knowing (the model follows the code):

- `decompressTo` itself creates only the root folder. Whether an output can
  be opened, missing parent folders included, is what the set of openable
  outputs abstracts.
- A folder that no entry names explicitly does not appear in the listing. For
  example, an archive with only `b/c.txt` lists nothing at the root.
- Duplicate entry names give duplicate items and are extracted again in
  order.
- The output path is not checked for `..` segments (`NoTraversalCheck`).
- When an output cannot be opened, `fos!!` throws. That ends the whole
  extraction in the error handler (`StopsAtUnwritable`).
- Success is reported even when the root folder could not be created and every
  entry was skipped (`RootUnavailableSkipsAll`).
- There is no cancellation and no summary count.
- Listing removes one trailing `/` from a name, while extraction removes all
  of them (`SlashRulesDiffer`).

## Model

| member | source | states |
|---|---|---|
| Paths.LastIndexOf | app/src/main/kotlin/com/simplemobiletools/filemanager/pro/activities/DecompressActivity.kt:107 | The result is -1 exactly when the character is absent. Otherwise it is an index holding that character with no occurrence after it. |
| Paths.FileName | app/src/main/kotlin/com/simplemobiletools/filemanager/pro/activities/DecompressActivity.kt:178 | The display name contains no `/` and is no longer than the path. |
| Paths.FileNameAfterLastSlash | app/src/main/kotlin/com/simplemobiletools/filemanager/pro/activities/DecompressActivity.kt:178 | The display name is exactly the text after the last `/`, or the whole path when it has none. |
| Paths.ParentPath | app/src/main/kotlin/com/simplemobiletools/filemanager/pro/activities/DecompressActivity.kt:144-148 | The parent rule. A path without `/` has parent `""`. Otherwise parent + `/` + last segment is the path. A non-empty path's parent is strictly shorter. |
| Paths.TrimTrailingSlashes | app/src/main/kotlin/com/simplemobiletools/filemanager/pro/activities/DecompressActivity.kt:109 | `trimEnd('/')`: the result is a prefix of the name. What it drops is all `/`, and the result does not end in `/`. |
| Paths.BaseName | app/src/main/kotlin/com/simplemobiletools/filemanager/pro/activities/DecompressActivity.kt:107 | `substringBeforeLast(".")`: a title without `.` is kept whole. Otherwise result + `.` + an extension without `.` is the title. |
| Paths.OutputPathShape | app/src/main/kotlin/com/simplemobiletools/filemanager/pro/activities/DecompressActivity.kt:107-109 | The output path starts with `destination/base/`. Putting back the trimmed trailing slashes gives exactly `destination/base/` + entry name. |
| Paths.SlashRulesDiffer | app/src/main/kotlin/com/simplemobiletools/filemanager/pro/activities/DecompressActivity.kt:177 | For the name `a//`, listing keeps `a/` while extraction writes to `a`. |
| Paths.NoTraversalCheck | app/src/main/kotlin/com/simplemobiletools/filemanager/pro/activities/DecompressActivity.kt:109 | The entry `../../etc/passwd` is placed at `root/../../etc/passwd`, with no check. |
| Paths.ParentDropsOneSlash | app/src/main/kotlin/com/simplemobiletools/filemanager/pro/activities/DecompressActivity.kt:64 | One back step from a path containing `/` removes exactly one `/`. |
| Paths.BackReachesRoot | app/src/main/kotlin/com/simplemobiletools/filemanager/pro/activities/DecompressActivity.kt:60-67 | Repeated back steps from any path reach the root `""` after `BackSteps(p)` steps. |
| Paths.BackNotBefore | app/src/main/kotlin/com/simplemobiletools/filemanager/pro/activities/DecompressActivity.kt:60-67 | Fewer than `BackSteps(p)` back steps do not reach the root. |
| Paths.BackStepsCount | app/src/main/kotlin/com/simplemobiletools/filemanager/pro/activities/DecompressActivity.kt:60-67 | Reaching the root takes at most one step per `/` plus one. It takes exactly that many for a path not starting with `/`. |
| Zip.ZipStream.NextEntry | app/src/main/kotlin/com/simplemobiletools/filemanager/pro/activities/DecompressActivity.kt:167-174 | Hands out the next entry and makes its data current. After the last entry it returns null, or throws when the archive is corrupt. |
| Zip.ZipStream.Read | app/src/main/kotlin/com/simplemobiletools/filemanager/pro/activities/DecompressActivity.kt:124 | Gives -1 at the end of the entry. Otherwise it copies the next 1..`buffer.Length` bytes of the entry into the buffer and consumes them. |
| Storage.FileSystem.PathExists | app/src/main/kotlin/com/simplemobiletools/filemanager/pro/activities/DecompressActivity.kt:111 | True exactly for existing directories. |
| Storage.FileSystem.CreateDirectory | app/src/main/kotlin/com/simplemobiletools/filemanager/pro/activities/DecompressActivity.kt:112 | Succeeds exactly for creatable paths, which then exist. Nothing else changes. |
| Storage.FileSystem.OpenOutput | app/src/main/kotlin/com/simplemobiletools/filemanager/pro/activities/DecompressActivity.kt:121 | Succeeds exactly for writable paths, and logs a new empty output. |
| Storage.FileSystem.Write | app/src/main/kotlin/com/simplemobiletools/filemanager/pro/activities/DecompressActivity.kt:129 | Appends `buffer[off..off+count]` as a chunk of the last output. |
| Storage.AppendChunk | app/src/main/kotlin/com/simplemobiletools/filemanager/pro/activities/DecompressActivity.kt:123-130 | A chunk of 1..limit bytes keeps every chunk within the limit and extends the output's bytes by the chunk. |
| Listing.ItemOfShape | app/src/main/kotlin/com/simplemobiletools/filemanager/pro/activities/DecompressActivity.kt:176-178 | An item's path is the entry name less one trailing `/` exactly for a directory. Its display name is the path's last segment. The flag is the entry's. The time is the entry's on Android 8+ and 0 before. |
| Listing.ItemsOfShape | app/src/main/kotlin/com/simplemobiletools/filemanager/pro/activities/DecompressActivity.kt:165-180 | One item per entry read, in stream order. Duplicates are kept. |
| Listing.Children | app/src/main/kotlin/com/simplemobiletools/filemanager/pro/activities/DecompressActivity.kt:143-150 | An item is kept if and only if it is in the list and its parent is the requested folder. |
| Listing.BeforeTotal | app/src/main/kotlin/com/simplemobiletools/filemanager/pro/activities/DecompressActivity.kt:151 | The comparator ranks any two items. Two items rank both ways exactly when they have the same directory flag and name. |
| Listing.BeforeTransitive | app/src/main/kotlin/com/simplemobiletools/filemanager/pro/activities/DecompressActivity.kt:151 | The comparator's order is transitive. |
| Listing.SortItemsCorrect | app/src/main/kotlin/com/simplemobiletools/filemanager/pro/activities/DecompressActivity.kt:151 | `sortedWith` gives an ordered permutation. Items ranked equal keep their relative order. |
| Listing.FolderItemsExact | app/src/main/kotlin/com/simplemobiletools/filemanager/pro/activities/DecompressActivity.kt:142-151 | Every child has the requested parent. Each item occurs as often as in `allFiles` when its parent matches, and never otherwise. |
| Listing.FolderItemsOrdered | app/src/main/kotlin/com/simplemobiletools/filemanager/pro/activities/DecompressActivity.kt:151 | All directories come before all files. Names never decrease within either group. |
| Listing.FolderItemsStable | app/src/main/kotlin/com/simplemobiletools/filemanager/pro/activities/DecompressActivity.kt:151 | The children ranked equal to any key appear in their `allFiles` order. |
| Listing.FolderItemsEmpty | app/src/main/kotlin/com/simplemobiletools/filemanager/pro/activities/DecompressActivity.kt:142-152 | A folder lists as empty, not as an error, if and only if no item has it as parent. |
| Extraction.RunFailedStays | app/src/main/kotlin/com/simplemobiletools/filemanager/pro/activities/DecompressActivity.kt:121-139 | Once an output could not be opened, later entries change nothing. |
| Extraction.RootUnavailableSkipsAll | app/src/main/kotlin/com/simplemobiletools/filemanager/pro/activities/DecompressActivity.kt:111-115 | With the root folder missing and not creatable, every entry is skipped. Nothing is written and extraction does not fail. |
| Extraction.RootAvailableWritesFiles | app/src/main/kotlin/com/simplemobiletools/filemanager/pro/activities/DecompressActivity.kt:104-132 | With the root available and every output openable, exactly the file entries are written, each in full at its output path and in stream order. Directories write nothing. |
| Extraction.StopsAtUnwritable | app/src/main/kotlin/com/simplemobiletools/filemanager/pro/activities/DecompressActivity.kt:121-131 | The first file whose output cannot be opened ends extraction. Only the files before it are written. |
| Extraction.WrittenFromFileEntries | app/src/main/kotlin/com/simplemobiletools/filemanager/pro/activities/DecompressActivity.kt:117-131 | Everything written is some file entry's complete data at that entry's output path. There are no more writes than entries. |
| Extraction.SingleFileArchive | app/src/main/kotlin/com/simplemobiletools/filemanager/pro/activities/DecompressActivity.kt:98-140 | A one-file archive with an available root and an openable output writes that file at `destination/base/name`, and succeeds. |
| Decompress.DecompressActivity.constructor | app/src/main/kotlin/com/simplemobiletools/filemanager/pro/activities/DecompressActivity.kt:21-22 | A new screen has no items and browses the root. |
| Decompress.DecompressActivity.OnCreate | app/src/main/kotlin/com/simplemobiletools/filemanager/pro/activities/DecompressActivity.kt:39-43 | Reads every entry into `allFiles`, then shows the root's children. |
| Decompress.DecompressActivity.FillAllListItems | app/src/main/kotlin/com/simplemobiletools/filemanager/pro/activities/DecompressActivity.kt:155-181 | Appends `ItemsOf` of every entry the stream hands out, until null or an exception. Items read so far are kept. A stream that cannot be opened adds nothing. |
| Decompress.DecompressActivity.UpdateCurrentPath | app/src/main/kotlin/com/simplemobiletools/filemanager/pro/activities/DecompressActivity.kt:69-72 | Sets `currentPath` and shows `getFolderItems` of it. |
| Decompress.DecompressActivity.OnItemClick | app/src/main/kotlin/com/simplemobiletools/filemanager/pro/activities/DecompressActivity.kt:73-76 | Tapping a shown item keeps the list showing the browsed folder. A directory opens its path, which is one level below the folder it was shown in. A file changes nothing. |
| Decompress.DecompressActivity.OnBackPressed | app/src/main/kotlin/com/simplemobiletools/filemanager/pro/activities/DecompressActivity.kt:60-67 | Exits exactly at the root. Elsewhere it browses the parent, which is strictly shorter, and shows its children. |
| Decompress.DecompressActivity.DecompressTo | app/src/main/kotlin/com/simplemobiletools/filemanager/pro/activities/DecompressActivity.kt:98-140 | The outcome is `ExtractOutcome`. The new outputs hold exactly what `Run` writes, in chunks of at most 1024 bytes. Earlier outputs are untouched, and the root folder is the only directory created. |
| Decompress.DecompressActivity.ExtractEntry | app/src/main/kotlin/com/simplemobiletools/filemanager/pro/activities/DecompressActivity.kt:106-131 | One pass of the entry loop does what `Step` says. |
| Decompress.DecompressActivity.WriteFileEntry | app/src/main/kotlin/com/simplemobiletools/filemanager/pro/activities/DecompressActivity.kt:121-131 | A file entry's output holds all of the entry's bytes, or extraction fails when the output cannot be opened. |
| Decompress.DecompressActivity.CopyEntry | app/src/main/kotlin/com/simplemobiletools/filemanager/pro/activities/DecompressActivity.kt:122-130 | The inner copy loop writes exactly the entry's remaining bytes into the last output, in chunks of 1..1024 bytes. |

## Left out

- The Android screen glue is not modelled: layout and toolbar set-up, the
  options menu, `onResume`, the adapter, toasts and `finish()`.
- `decompressFiles` is not modelled: the destination picker, the storage
  access dialog and the background thread. `DecompressTo` takes the chosen
  destination as a parameter.
- The missing-URI branch of `onCreate` (toast and return) is not modelled.
- `title` is the Activity's own title, which the code modelled here does not
  set (it sets the toolbar's title). `DecompressTo` therefore takes it as a
  parameter.
- An archive that cannot be opened is a null stream, in both listing and
  extraction.
- Closing streams (`use`, `fos.close()`) and `getMimeType` are left out. They
  do not affect what is written.
- The output log does not model overwriting an existing file, or a file
  opened twice. It records every opened output in order.
- Storage.FileSystem.Write: a write or close that throws (a full disk, say)
  ends extraction in the error handler and leaves a partly written file. This
  is not modelled: `Write` always succeeds, so `DecompressTo` can report
  `Succeeded` where the program fails.
- Decoder errors in the middle of an entry's data are not modelled. The stream
  is corrupt only where the next entry is asked for (`StreamEnd.Corrupt`).
- The `ListItem` fields the screen does not use (children count, size,
  section flags) are left out.
- Listing.ItemOf: `lastModifiedTime` is assumed present. A null time would
  throw, which is not modelled.
- Listing.NameLe: compares Dafny characters, that is Unicode code points.
  Kotlin's `String.compareTo` compares UTF-16 code units, so the two orders
  differ for characters outside the Basic Multilingual Plane.
- Decompress.DecompressActivity.UpdateCurrentPath: the `try`/`catch` around
  the listing is not modelled, because the modelled listing cannot throw.
- Decompress.DecompressActivity.GetFolderItems: it is a function, so it has no
  side effects and equal arguments give equal lists by construction. Its
  properties are the `Listing.FolderItems*` lemmas.
- Paths.OutputPath and Paths.RemoveSlashSuffix carry no contract of their own.
  Their properties are stated by `Paths.OutputPathShape`,
  `Paths.SlashRulesDiffer` and `Listing.ItemOfShape`.
