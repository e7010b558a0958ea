# freebox-file-pusher: archive jobs and folder scans, in Dafny

This project models two decision cores of freebox-file-pusher. The program
watches folders, waits until their contents stop changing, and then packs
them into `.tbz2` archives before pushing them to a Freebox.

* **Archive submission and entry selection** (`FilesCompresor`).
  * `compress(p)` starts an archive job only when no job for `p` is in
    flight and the archive `<name>.tbz2` next to `p` does not exist yet.
  * A job walks the tree below `p`. It drops the root directory and every
    file whose extension is in the exclusion list. Each kept item is named
    by its path relative to `p`.
  * A job always clears the in-flight marker of `p` when it ends.
  * The exclusion list comes from the `fft.exclude.extension` setting,
    split at commas, or from its default `.html,.exe,.txt,.readme,.nfo,.link`.
* **One scan cycle of a watched folder** (`FolderWatcherRunnable.run`).
  * Every child of the folder is either new, in which case a catalog item
    is created for it, or known through one or more catalog items.
  * A known item in status WATCH whose files and checksum have not changed
    for `cooldown` seconds moves to TO_SEND.
  * The catalog is saved once, after the loop, if some item changed.

Modules follow the program's structure:

* `Wrappers` holds `Option`.
* `Text` holds the character search and Java's `String.split` on one
  character.
* `Paths` holds paths as sequences of name segments. The file-system root
  is `[]`.
* `Exclusions` holds `getExtension` and `getExcludeExtensions`.
* `ArchiveWalk` holds the walk filter and the entry names.
* `Compressor` holds the in-flight state machine and `computeTarBZip2Name`.
* `FolderWatcher` holds the per-item rule and the scan fold.

The services are inputs to the model. These are the checksum, item-update
and catalog (DAO) answers, the presence of files on disk, the directory
walk, and the clock reading taken for each item, in whole seconds.

**Where the code departs from its stated intent, the model follows the
code.**

* The exclusion test compares `getExtension(name)` with the configured
  pieces. The comment "Exclude some file extension"
  (`FilesCompresor.java:119`) and the dotted defaults (`:179`) show that
  files such as `a.txt` were meant to be left out. But `getExtension`
  returns the extension without its dot (`txt`), while every default piece
  keeps its dot (`.txt`). So with the default setting no file is ever
  excluded. A tree with `a.txt`, `b.bin` and `sub/c.exe` is archived whole
  (`ArchiveWalk.DefaultsKeepSampleTree`,
  `Exclusions.DefaultsExcludeNothing`). It is not archived as `b.bin` and
  `sub` only.
* The Javadoc of `compress` (`FilesCompresor.java:66`) accepts "the path or
  file to compress", but a source that is a regular file is never deleted.
  The directory deletion rejects it with an unchecked exception, which the
  job's `IOException` handler does not catch. Once its archive file was
  opened, such a job counts as `Failed(true)`: the file stays and its
  archive (whose entries may be incomplete, see `ArchiveWalk.BuildEntries`
  under "## Left out") is on disk, so a later `compress` of it is refused
  (`Compressor.ResubmitAfterFinish`). When opening the archive file fails,
  the job counts as `Failed(false)` and nothing is archived.

**Consequences of the code that the model makes explicit.** Nothing in the
program's text promises otherwise, but a reader may expect otherwise.

* A job that fails after the archive file was opened leaves that file on
  disk. A later `compress(p)` then finds the archive and does nothing, so
  the job is not retried (`Compressor.ResubmitAfterFinish`).
* A write error that appears only when the archive streams are closed
  comes after the source has been deleted. It is logged, but the source is
  lost and the archive is incomplete. The model counts such a job as
  `Completed`, by its effect on disk (`Compressor.Finish`).
* An exception while handling one child of the watched folder is caught
  outside the loop over the children. It therefore abandons the children
  not yet handled and skips the save (`FolderWatcher.RaiseAbandonsRest`).
  It does not move on to the next child.

## Model

| member | source | states |
|---|---|---|
| Compressor.Target | freebox-file-pusher/src/main/java/eu/gaki/ffp/compress/FilesCompresor.java:192-195 | The archive of a path with a parent is the sibling in the same directory whose name is the path's name followed by `.tbz2`. A path without a parent has no archive name, where Java throws. |
| Compressor.TargetOutsideSource | freebox-file-pusher/src/main/java/eu/gaki/ffp/compress/FilesCompresor.java:192-195 | The archive is neither the source path nor anything below it, so deleting the source tree cannot delete the archive. |
| Compressor.TargetInjective | freebox-file-pusher/src/main/java/eu/gaki/ffp/compress/FilesCompresor.java:192-195 | Two paths with parents and the same archive name are the same path. |
| Compressor.Compress | freebox-file-pusher/src/main/java/eu/gaki/ffp/compress/FilesCompresor.java:68-75 | Four outcomes, each with an if-and-only-if: already in flight; no parent; archive on disk; scheduled. Unless scheduled, the state is unchanged. When scheduled, exactly `p` joins the in-flight set and exactly one job for `p` is added. |
| Compressor.Finish | freebox-file-pusher/src/main/java/eu/gaki/ffp/compress/FilesCompresor.java:83-162 | Ending a job removes one job for `p` and clears the in-flight marker of `p` and of nothing else, on success and on failure. When the deletion of the source returned (`Completed`), the archive is on disk, everything below `p` is gone and no other path appears or disappears. When an exception ended the job before that deletion returned (`Failed`), only the archive may have appeared, and it is present exactly when it was created or already there. |
| Compressor.ApplyKeepsInv | freebox-file-pusher/src/main/java/eu/gaki/ffp/compress/FilesCompresor.java:68-162 | A submission or a job end keeps these facts: the queued and running jobs are exactly the in-flight paths, once each, and every in-flight path has a parent. |
| Compressor.RunKeepsInv | freebox-file-pusher/src/main/java/eu/gaki/ffp/compress/FilesCompresor.java:50-162 | After any sequence of submissions and job ends, no path has more than one job, and a path has a job exactly when it is marked in flight. |
| Compressor.SubmitTwice | freebox-file-pusher/src/main/java/eu/gaki/ffp/compress/FilesCompresor.java:68-73 | Two `compress(p)` calls with no job end in between schedule at most one job. After a scheduled call, the second finds `p` in flight and adds nothing. |
| Compressor.ResubmitAfterFinish | freebox-file-pusher/src/main/java/eu/gaki/ffp/compress/FilesCompresor.java:70-162 | After a job for `p` ends, `p` is not in flight. A new `compress(p)` is scheduled exactly when the archive is absent. It is refused after a completed job, and after a failed job that had already created the archive file. |
| Paths.Relativize | freebox-file-pusher/src/main/java/eu/gaki/ffp/compress/FilesCompresor.java:129 | The relative path of `p` against an ancestor `base`, when put after `base`, gives `p` back. |
| Text.JavaSplitPieces | freebox-file-pusher/src/main/java/eu/gaki/ffp/compress/FilesCompresor.java:180 | `split(",")` returns the comma-separated pieces in order, with the trailing empty ones dropped. None of them holds a comma. A value with no comma comes back whole, even when empty. |
| Text.JoinSplitAll | freebox-file-pusher/src/main/java/eu/gaki/ffp/compress/FilesCompresor.java:180 | Gluing the pieces back together with commas gives the input back, so splitting loses nothing. |
| Text.SplitAllJoin | freebox-file-pusher/src/main/java/eu/gaki/ffp/compress/FilesCompresor.java:180 | Splitting one or more comma-free pieces joined with commas gives the pieces back. (Zero pieces join to `""`, which splits to one empty piece.) |
| Exclusions.GetExtension | freebox-file-pusher/src/main/java/eu/gaki/ffp/compress/FilesCompresor.java:111 | The extension holds no dot, slash or backslash. It is empty for a name without a dot. A non-empty extension is exactly the text after a dot at the end of the name. |
| Exclusions.ExtensionAfterLastDot | freebox-file-pusher/src/main/java/eu/gaki/ffp/compress/FilesCompresor.java:111 | The last dot decides the extension: it is the text after that dot, or empty when a slash or backslash occurs there, since `FilenameUtils` takes either for a directory separator. |
| Exclusions.ExtensionOfDotted | freebox-file-pusher/src/main/java/eu/gaki/ffp/compress/FilesCompresor.java:111 | A name `base.ext`, where `ext` holds no dot and no separator, has extension `ext`, whatever dots `base` holds. |
| Exclusions.DefaultExclusions | freebox-file-pusher/src/main/java/eu/gaki/ffp/compress/FilesCompresor.java:177-183 | Without configuration, the exclusion set is exactly the six entries `.html`, `.exe`, `.txt`, `.readme`, `.nfo` and `.link`, each with its dot. |
| Exclusions.ConfiguredExclusions | freebox-file-pusher/src/main/java/eu/gaki/ffp/compress/FilesCompresor.java:177-183 | A configured value gives a set made only of its comma-separated pieces, none holding a comma. Every non-empty piece is in the set. The empty extension, which leaves out files without an extension, is in the set exactly when an empty piece comes before a non-empty one (`.txt,,.exe`, not `.txt,.exe,`) or when the value is empty. |
| Exclusions.EmptyExtensionExcluded | freebox-file-pusher/src/main/java/eu/gaki/ffp/compress/FilesCompresor.java:180 | For a non-empty value, `split(",")` keeps an empty piece exactly when an empty piece comes before a non-empty one, because trailing empty pieces are dropped. |
| Exclusions.DottedExcludeNothing | freebox-file-pusher/src/main/java/eu/gaki/ffp/compress/FilesCompresor.java:111-120 | No extension is ever a member of a set whose entries all start with a dot. |
| Exclusions.DefaultsDotted | freebox-file-pusher/src/main/java/eu/gaki/ffp/compress/FilesCompresor.java:179-181 | Every entry of the default exclusion set starts with a dot. |
| Exclusions.DefaultsExcludeNothing | freebox-file-pusher/src/main/java/eu/gaki/ffp/compress/FilesCompresor.java:109-124 | As written, no file name's extension is in the default exclusion set. |
| ArchiveWalk.FilterWalk | freebox-file-pusher/src/main/java/eu/gaki/ffp/compress/FilesCompresor.java:109-124 | An item is kept exactly when it is walked and the filter accepts it. The kept items keep their walk order. |
| ArchiveWalk.FilterByKind | freebox-file-pusher/src/main/java/eu/gaki/ffp/compress/FilesCompresor.java:114-121 | The root directory is never kept. Every other directory is kept whatever its name. A file is kept exactly when its extension is not excluded. |
| ArchiveWalk.DefaultsArchiveAllFiles | freebox-file-pusher/src/main/java/eu/gaki/ffp/compress/FilesCompresor.java:109-124 | With the default setting every walked item except the root directory is kept. |
| ArchiveWalk.EntryNames | freebox-file-pusher/src/main/java/eu/gaki/ffp/compress/FilesCompresor.java:126-131 | There is one entry name per kept item, in the same order. Each name, put after the root, gives back the item's path. |
| ArchiveWalk.ArchivedIffKept | freebox-file-pusher/src/main/java/eu/gaki/ffp/compress/FilesCompresor.java:109-131 | Every item the filter accepts appears in the archive under its path relative to the root. Every entry comes from such an item. |
| ArchiveWalk.KeptBelowRoot | freebox-file-pusher/src/main/java/eu/gaki/ffp/compress/FilesCompresor.java:94-124 | When the walk starts at a root directory, every kept item lies strictly below the root. |
| ArchiveWalk.RootNeverArchived | freebox-file-pusher/src/main/java/eu/gaki/ffp/compress/FilesCompresor.java:94-131 | When the root is a directory, every entry name is non-empty and names a walked item below the root. |
| ArchiveWalk.SampleWalkUnderRoot | freebox-file-pusher/src/main/java/eu/gaki/ffp/compress/FilesCompresor.java:129 | In a tree holding `a.txt`, `b.bin` and `sub/c.exe`, the entry names of `a.txt` and `sub/c.exe` are `a.txt` and `sub/c.exe`. |
| ArchiveWalk.DottedKeepSampleTree | freebox-file-pusher/src/main/java/eu/gaki/ffp/compress/FilesCompresor.java:109-131 | With any exclusion set whose entries start with a dot, the sample tree's `a.txt` and `sub/c.exe` are archived. |
| ArchiveWalk.DefaultsKeepSampleTree | freebox-file-pusher/src/main/java/eu/gaki/ffp/compress/FilesCompresor.java:109-131 | With the default setting, the sample tree's `.txt` and `.exe` files are archived. |
| ArchiveWalk.BuildEntries | freebox-file-pusher/src/main/java/eu/gaki/ffp/compress/FilesCompresor.java:109-142 | Writing the entries one walked item at a time yields exactly the entry names of the filtered walk, in walk order. |
| FolderWatcher.Step | src/main/java/eu/gaki/ffp/runnable/FolderWatcherRunnable.java:76-101 | An item that is not WATCH is left alone. A change in files or checksum keeps WATCH and flags a change. A checksum recorded at least `cooldown` seconds ago moves the item to TO_SEND and flags a change. Otherwise, including when no checksum date is recorded, nothing happens. |
| FolderWatcher.StepMeaning | src/main/java/eu/gaki/ffp/runnable/FolderWatcherRunnable.java:76-101 | The only status move is WATCH to TO_SEND, and only after the cooldown. A change is flagged exactly when a WATCH item moves or sees its files or checksum change. |
| FolderWatcher.StepMonotoneInTime | src/main/java/eu/gaki/ffp/runnable/FolderWatcherRunnable.java:84-91 | An item that is ready to send at some time would also be ready at every later time. |
| FolderWatcher.CooldownBoundary | src/main/java/eu/gaki/ffp/runnable/FolderWatcherRunnable.java:86-91 | After one second less than the cooldown the item stays WATCH. After exactly the cooldown it becomes TO_SEND. |
| FolderWatcher.ScanEntries | src/main/java/eu/gaki/ffp/runnable/FolderWatcherRunnable.java:75-102 | Every item of one child keeps its source and its answers. Its status either stays or moves from WATCH to TO_SEND, and it moves only after the cooldown measured with that item's own clock reading. The loop raises only when some WATCH item's services raise. |
| FolderWatcher.ScanEntriesEffect | src/main/java/eu/gaki/ffp/runnable/FolderWatcherRunnable.java:75-102 | Every item before the first one that raises takes the status the per-item rule gives it. That item and every later one come back exactly as they were. |
| FolderWatcher.AllEntriesStepped | src/main/java/eu/gaki/ffp/runnable/FolderWatcherRunnable.java:75-102 | When no item raises, every item of the child takes the status the per-item rule gives it. |
| FolderWatcher.ScanEntriesFlags | src/main/java/eu/gaki/ffp/runnable/FolderWatcherRunnable.java:75-102 | The items of one child raise exactly when some WATCH item's services raise. Otherwise they flag a change exactly when some item changes. |
| FolderWatcher.ScanChildren | src/main/java/eu/gaki/ffp/runnable/FolderWatcherRunnable.java:65-104 | Every child comes back with the same items, each one allowed only the moves above. At most one item is added per child. |
| FolderWatcher.ScanChildrenEffect | src/main/java/eu/gaki/ffp/runnable/FolderWatcherRunnable.java:65-104 | Every child up to and including the first one that raises has had its items run through the loop over them. Every later child comes back exactly as it was. |
| FolderWatcher.ScanChildrenAdded | src/main/java/eu/gaki/ffp/runnable/FolderWatcherRunnable.java:65-104 | The added items are the created items of the new children, in order: of all children when none raises, and otherwise of the children up to and including the first one that raises. |
| FolderWatcher.ScanChildrenFlags | src/main/java/eu/gaki/ffp/runnable/FolderWatcherRunnable.java:64-104 | The loop over the children raises exactly when some child raises. Otherwise it flags a change exactly when some item of a known child changes. |
| FolderWatcher.Cycle | src/main/java/eu/gaki/ffp/runnable/FolderWatcherRunnable.java:58-119 | A missing folder leaves every child alone, adds nothing and does not save. On an existing folder the children up to and including the first one that raises have their items run through the rule, later children are untouched, and the created items of the new children handled are added in order. |
| FolderWatcher.QuietItemSent | src/main/java/eu/gaki/ffp/runnable/FolderWatcherRunnable.java:83-92 | A WATCH item of a known child whose files and checksum stayed quiet for the cooldown is TO_SEND after the cycle, unless an exception earlier in the scan stopped it first. |
| FolderWatcher.SavedIffSomeItemChanged | src/main/java/eu/gaki/ffp/runnable/FolderWatcherRunnable.java:61-111 | `save()` is called exactly when the folder exists, no child raises, and some item of a known child changes. |
| FolderWatcher.NewChildrenOnlyAdd | src/main/java/eu/gaki/ffp/runnable/FolderWatcherRunnable.java:64-108 | A cycle that meets only new children, none of whose checksum requests throws, adds one item per child, in order. It flags no change and does not save. |
| FolderWatcher.RaiseAbandonsRest | src/main/java/eu/gaki/ffp/runnable/FolderWatcherRunnable.java:65-111 | When a child raises, the cycle raises. Every later child comes back untouched, and the catalog is not saved. |
| FolderWatcher.RaiseKeepsLater | src/main/java/eu/gaki/ffp/runnable/FolderWatcherRunnable.java:65-111 | The children after one that raises come back exactly as they were. |

## Left out

- The tar and bzip2 byte encodings, with their long-name and big-number modes, are left out. These are library calls; an archive is modelled as its ordered list of entry names.
- The `ffp.compress.folder` switch only chooses whether the bzip2 wrapper is used, so it has no effect on which entries are written.
- Real file-system I/O is left out: `Files.walk` with `FOLLOW_LINKS`, `Files.copy`, `FileUtils.deleteDirectory` and stream closing. The walk is an input sequence, and the presence of files is a set of paths.
- A job's outcome is an input: completed, or failed with or without the archive file created.
- ArchiveWalk.BuildEntries: the modelled entry list is the list of entries the loop tries to write. An `IOException` from `putArchiveEntry` or `Files.copy` is swallowed, and then that entry is missing from the written archive or cut short in it. That is not modelled. The job still goes on and deletes the source, as in the completed outcome.
- Compressor.Finish: which outcome a job has is an input. `Completed` means the deletion of the source directory returned. An error raised afterwards, when the archive streams are closed, is logged, but the source is already gone and the archive may be incomplete; the model does not track archive contents. `Failed` means an exception ended the job before that deletion returned. That covers a regular-file source, which the directory deletion rejects with an unchecked exception: `Failed(true)` once its archive file was opened, `Failed(false)` when opening that file failed. It also covers an unchecked I/O error during the walk. Both escape the job's `IOException` handler, so the marker is still cleared but the error reaches the executor. A deletion that fails part-way, which has already removed part of the tree, is not modelled: the model deletes the whole tree or nothing.
- The executor, the thread pool and `synchronized` are left out. A submission and a job end are each one atomic event, and the order of events is an input.
- The checksum, item-update and catalog services are not part of this model. Their answers are inputs, as is a raised exception, which is modelled per child and per WATCH item. Where the item service builds a new item is not modelled either; the created item is an input.
- FolderWatcher.Cycle: an exception while opening the directory stream, or from `save()` itself, is not modelled separately. Both are caught by the same handler, and neither changes an item.
- FolderWatcher.Cycle: a known child with an empty list of items cannot occur in the source, because an empty lookup makes the child new. The model accepts one and leaves it alone.
- Wall-clock types and logging are left out. Times are whole seconds, and `Duration.getSeconds` is a subtraction. The clock is read once per WATCH item, after its services answered, and that reading is part of the item's input.
- Exclusions.GetExtension: the colon test that `FilenameUtils.getExtension` makes only on Windows is not modelled. That test rejects names naming an alternate data stream.
- Text.JavaSplitPieces: `String.split` takes a regular expression, and only the one-character literal separator `,` used here is modelled.
- `src/test/java/eu/gaki/ffp/service/ConfigServiceTest.java` tests a configuration service that is not part of this model.
