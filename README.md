# Zip2KiCad in Dafny

Zip2KiCad watches a downloads folder for new ZIP archives. When one arrives it
does five things in order:

1. It waits until the file has finished writing. This is the stability
   detector, `is_stable_file`.
2. It checks that the archive holds a KiCad symbol file.
3. It moves the archive into a folder named after it under the library root.
4. It extracts the archive there.
5. It deletes the moved archive.

This project models those steps and the name logic they rest on.

- `names.dfy` (module `PathNames`): ASCII lowercasing and pathlib's `name`,
  `suffix`, `stem` and `/`. It also holds the dispatch filter of
  `ZipMonitor.on_created`, the "holds a symbol file" test, and the
  destination folder and archive paths.
- `stability.dfy` (module `Stability`): `is_stable_file` as a method with a
  `while` loop. It is proved against the function `Poll`. A file is a
  function from sample number to what `stat` sees: `Missing`, `Unreadable`
  (another `stat` error) or `Size(n)`. Time is counted in
  integer ticks.
- `files.dfy` (module `Files`): the file system as a map from paths
  (sequences of components) to `Dir` or `File`. There is one function per
  operation `process_zip` performs: `mkdir(parents=True, exist_ok=True)`,
  `shutil.move`, `extractall` and `unlink`. Each one says whether the call
  raised and what the tree looks like afterwards. The class `FileSystem`
  performs these operations in place. The move, the extraction and the
  delete also take an oracle input for a failure the tree cannot show
  (permissions, a corrupt archive). Folder creation takes none: it raises
  only when a file is in the way.
- `processor.dfy` (module `Processor`): `process_zip` as a method on a
  `FileSystem`, proved against the function `Process`. The lemmas say which
  terminal state the archive reaches:
  - left untouched at its source path;
  - raised out of the move, with the archive still at its source;
  - moved and deleted;
  - left in its library folder.
- `monitor.dfy` (module `Monitor`): the `on_created` handler, with the
  archive extension loaded from the settings.
- `scenarios.dfy` (module `Scenarios`): concrete runs. These are the
  `widget-A1.zip` archive, the `readme.zip` archive and an empty placeholder
  file.

Some behaviour follows the code exactly:

- The polling loop's `last_size` starts at -1, so the first sample can never
  count as stable.
- A size of 0 never counts as stable.
- A file with a leading dot (`.zip`) has no suffix, so the handler does not
  dispatch it.
- Only `FileNotFoundError` is caught around `stat` while polling. Any other
  `stat` error, such as `PermissionError`, propagates out of `process_zip`.
- Only `BadZipFile` is caught when the archive is opened. Any other error
  from opening it propagates, and so does a failed `mkdir` and a failed move.
- A failed extraction does not keep the archive. The delete is still
  attempted, and the archive stays in the library folder only if that delete
  fails.
- Settings are passed as a `Config` value. `LoadConfig` lowercases the two
  extensions, as the loader does.

## Model

| member | source | states |
|---|---|---|
| `PathNames.Lower` | Zip2KiCad.py:31-32 | lowercasing keeps the length, yields only non-upper-case letters, and agrees with the input letter by letter up to case |
| `PathNames.LowerFixesLowercase` | Zip2KiCad.py:31-32 | lowercasing an already lowercased extension changes nothing |
| `PathNames.LastIndexOf` | Zip2KiCad.py:111 | `rfind`: the result is -1 or the index of a dot, and no dot follows it |
| `PathNames.StemSuffixSplit` | Zip2KiCad.py:66 | stem followed by suffix gives back the name. The suffix is empty, or a dot followed by dot-free characters after a non-empty stem |
| `PathNames.SuffixAtLastDot` | Zip2KiCad.py:66 | conversely, when the last dot of a name is neither its first nor its last character, the suffix starts at that dot and the stem ends there |
| `PathNames.Join` | Zip2KiCad.py:85-89 | `/` keeps a normal path normal (no "" or "." component is ever stored); an empty or "." component leaves the path unchanged, and any other component `c` gives a path whose parent is `p` and whose name is `c` |
| `PathNames.ArchiveEventIff` | Zip2KiCad.py:111 | for a lowercase extension like `.zip`, an event is dispatched iff it is not a directory, its name is longer than the extension, and the name ends with the extension ignoring case (both directions) |
| `PathNames.Qualifies` | Zip2KiCad.py:77 | true iff some entry name, lowercased, ends with the symbol extension |
| `PathNames.DestinationOfArchive` | Zip2KiCad.py:66-89 | for a dispatched archive, the moved file is `dest_folder / name` one level below the folder. The folder is `LIB_ROOT / stem`, or `LIB_ROOT` itself when the stem is "." |
| `Stability.IsStableFile` | Zip2KiCad.py:49-63 | the loop returns true exactly when `Poll` says Stable and takes `Poll`'s number of samples. It raises exactly when `Poll` says a `stat` error other than a missing file ended it, and that error was the last sample. When true, the last sample repeats the one before it with a non-zero size. It never takes more than ceil(max_wait/interval) samples |
| `Stability.BudgetIsCeiling` | Zip2KiCad.py:52-53 | j*interval < max_wait iff j < ceil(max_wait/interval), so the loop guard, with `waited` at j*interval after j samples, lets the loop go on iff fewer than ceil(max_wait/interval) samples were taken |
| `Stability.EndingFrom` | Zip2KiCad.py:53-62 | from any loop state: every sample but the last was present and not a repeat. The run ends on a missing sample, an unreadable one, a non-zero repeat, or a timeout after a quiet sample |
| `Stability.WaitingFrom` | Zip2KiCad.py:52-62 | every sample is taken while `waited < max_wait`, and a timeout has waited at least `max_wait` |
| `Stability.Characterization` | Zip2KiCad.py:49-63 | the whole run: at most ceil(max_wait/interval) samples, all but the last quiet. Vanished ends on a missing sample and StatRaised on an unreadable one. Stable ends on a repeat and needs at least two samples. A timeout comes after exactly ceil(max_wait/interval) quiet samples |
| `Stability.SamplesWithinBudget` | Zip2KiCad.py:52-63 | at most ceil(max_wait/interval) samples, and exactly that many on a timeout. With `max_wait <= 0` the result is false after no samples |
| `Stability.EmptyFileNeverStable` | Zip2KiCad.py:58-63 | a file that reads 0 bytes at every sample is never stable. It times out after ceil(max_wait/interval) samples |
| `Stability.MissingStopsPolling` | Zip2KiCad.py:54-57 | a missing sample ends the loop at once with Vanished, and no sample follows it |
| `Stability.StatErrorStopsPolling` | Zip2KiCad.py:54-57 | a `stat` error other than a missing file ends the loop at once with StatRaised, and no sample follows it |
| `Stability.RepeatWithinBudgetIsStable` | Zip2KiCad.py:58-59 | two equal non-zero samples in a row within the budget, with the file present before them, make the file Stable no later than the second of them |
| `Files.AfterMkdirs` | Zip2KiCad.py:86 | raises iff the folder or one of its ancestors is a file. Otherwise the folder is a directory afterwards, nothing existing changes, and only its ancestors are added |
| `Files.MkdirsIdempotent` | Zip2KiCad.py:86 | creating the folder again (`exist_ok=True`) gives the same tree and does not raise |
| `Files.MkdirsKeepsWellFormed` | Zip2KiCad.py:86 | folder creation keeps every path below directories that exist |
| `Files.AfterMove` | Zip2KiCad.py:90 | raises iff the oracle says so, the source is not a file, the target is a directory, or the target's folder is missing. Otherwise the target holds the source's entry, the source is gone, and nothing else changes |
| `Files.MoveKeepsWellFormed` | Zip2KiCad.py:90 | a move keeps the tree well formed |
| `Files.WriteMembers` | Zip2KiCad.py:95-96 | writing keeps every existing entry's kind, changes no entry that is not a member's target, and adds only files at member targets. On success every member's target is there |
| `Files.WriteSucceedsIff` | Zip2KiCad.py:95-96 | writing succeeds iff no member's target is a directory (both directions) |
| `Files.WriteHoldsData` | Zip2KiCad.py:95-96 | when no member lands on a directory, each target ends up holding the data of the last member with that name |
| `Files.AfterExtract` | Zip2KiCad.py:94-96 | succeeds iff the archive is a file, the oracle lets every member through, and no member's target is a directory. On success every target holds its member's data. Nothing is removed, no entry that is not a member's target changes, and only files at member targets are added |
| `Files.ExtractKeepsWellFormed` | Zip2KiCad.py:95-96 | extracting into a directory keeps the tree well formed |
| `Files.AfterUnlink` | Zip2KiCad.py:103 | raises iff the oracle says so or the path is not a file. Otherwise exactly that path is removed |
| `Files.UnlinkKeepsWellFormed` | Zip2KiCad.py:103 | deleting a file keeps the tree well formed |
| `Files.FileSystem.Mkdirs` | Zip2KiCad.py:86 | the tree becomes `AfterMkdirs` of the old tree, or stays as it was when the call raised |
| `Files.FileSystem.Move` | Zip2KiCad.py:90 | the tree becomes `AfterMove` of the old tree, or stays as it was when the call raised |
| `Files.FileSystem.ExtractAll` | Zip2KiCad.py:95-96 | the tree becomes `AfterExtract` of the old tree, including the members written before a failure |
| `Files.FileSystem.Unlink` | Zip2KiCad.py:103 | the tree becomes `AfterUnlink` of the old tree, or stays as it was when the call raised |
| `Processor.LoadConfig` | Zip2KiCad.py:27-32 | the loaded extensions are lowercase and equal the configured ones ignoring case |
| `Processor.ProcessZip` | Zip2KiCad.py:65-106 | the outcome and the new tree are those of `Process`: stabilize (a `stat` error propagates), qualify, create the folder, move, extract, then delete |
| `Processor.ReachesFolderIff` | Zip2KiCad.py:70-82 | the run gets past the checks iff the file settled, the archive opened, and some entry name ends with the symbol extension ignoring case |
| `Processor.RejectedArchiveUntouched` | Zip2KiCad.py:70-86 | an unstable, unreadable, unopenable, corrupt or unqualified archive leaves the tree exactly as it was. So does a failed folder creation: no folder, no move |
| `Processor.MoveFailureLeavesArchive` | Zip2KiCad.py:85-90 | when the move raises, the folder has been created and stays, and the archive is unchanged at its source path |
| `Processor.ReachedFinish` | Zip2KiCad.py:84-92 | a run that gets past the move opened the archive, created the folder and moved the archive, and then goes on to extract and delete |
| `Processor.MovedIntoFolder` | Zip2KiCad.py:85-90 | after a successful move the archive is a file directly below the folder and the folder is still a directory. The archive is gone from its source unless it already sat in that folder, which is exactly when source and target coincide |
| `Processor.FinishRelocates` | Zip2KiCad.py:93-106 | after extracting and deleting, the source path stays empty and the folder remains. The archive is deleted iff the delete did not fail. When extraction succeeded, every member is in the folder |
| `Processor.ProcessedArchiveRelocated` | Zip2KiCad.py:85-106 | a run past the move leaves a directory at `LIB_ROOT / stem`. The archive is deleted iff the delete succeeds, else it stays in the folder. A successful extraction puts every member there. The source path is empty afterwards, unless the archive already sat in its own folder and could not be deleted |
| `Processor.FinishKeepsFolder` | Zip2KiCad.py:93-106 | once the archive is a file in the folder, extracting and deleting keep the folder a directory, delete the archive iff the delete succeeds, and on a successful extraction place every member |
| `Processor.QualifyingArchiveProcessed` | Zip2KiCad.py:65-106 | a settled archive that opens and holds a symbol file, with no file among its folder's ancestors, no directory at its new path or at a member's target, a move that succeeds and a full extraction, ends `Processed` with everything extracted, and deleted iff the delete succeeds |
| `Processor.MoveFinishes` | Zip2KiCad.py:93-106 | once the archive is a file at its new path and no member lands on a directory, a full extraction succeeds and deletion is decided by the delete alone |
| `Processor.ProcessFrame` | Zip2KiCad.py:65-106 | every run, whatever its outcome, removes no existing entry but the archive and a file already at its new path `dest_folder / name` (replaced by the move, then deleted), and changes the kind of none; every existing entry outside the library folder keeps its value. New entries are the folder and its ancestors, the moved archive, or paths directly inside the folder |
| `Processor.FinishFrame` | Zip2KiCad.py:93-106 | extracting and deleting remove nothing but the moved archive and change no entry's kind; values change only directly inside the folder, and only paths directly inside it are added |
| `Processor.ExtractionFailureStillDeletes` | Zip2KiCad.py:94-106 | a failed extraction still leads to the delete. The outcome is "not extracted", with deletion decided by the delete alone |
| `Processor.FinishKeepsWellFormed` | Zip2KiCad.py:93-106 | extracting into the folder and deleting the archive keep the tree well formed |
| `Processor.ProcessKeepsWellFormed` | Zip2KiCad.py:84-106 | every run, whatever its outcome, keeps the tree well formed |
| `Monitor.OnCreated` | Zip2KiCad.py:109-114 | an event is handed to `process_zip` iff it is not a directory and its lowercased suffix equals the archive extension. Any other event leaves the tree unchanged |
| `Monitor.LoadedFilterIff` | Zip2KiCad.py:31-111 | with the extension loaded in any case, a file is dispatched iff its name is longer than the extension and ends with it, ignoring case on both sides |
| `Scenarios.WidgetArchiveSettles` | Zip2KiCad.py:58-59 | a file that stays at 4096 bytes is stable after two samples |
| `Scenarios.WidgetDestination` | Zip2KiCad.py:85-89 | `widget-A1.zip` goes to `lib/widget-A1/widget-A1.zip` |
| `Scenarios.WidgetQualifies` | Zip2KiCad.py:77 | an archive holding `widget-A1.kicad_sym` qualifies |
| `Scenarios.WidgetArchiveProcessed` | Zip2KiCad.py:65-106 | the whole `widget-A1.zip` run, with `widget-A1.kicad_sym` and `widget-A1.kicad_mod` inside, ends `Processed(true, true)`: the archive is gone from `downloads` and from `lib/widget-A1`, the folder is a directory, and both files are in it |
| `Scenarios.WidgetArchiveRelocated` | Zip2KiCad.py:85-106 | after any `widget-A1.zip` run that ends `Processed(true, true)`, whatever else the tree holds, the archive is gone from `downloads` and from `lib/widget-A1`, the folder is a directory, and both `widget-A1.kicad_sym` and `widget-A1.kicad_mod` are in it |
| `Scenarios.ReadmeArchiveIsSkipped` | Zip2KiCad.py:74-79 | `readme.zip`, holding only `README.txt`, is skipped and the tree is unchanged |
| `Scenarios.EmptyPlaceholderTimesOut` | Zip2KiCad.py:53-72 | an empty file with max_wait 5 and interval 1 times out after 5 samples, and processing stops with the tree unchanged |

## Left out

- Frozen-bundle directory detection, loading the settings from JSON, and
  creating the log file (Zip2KiCad.py:11-47). These are environment and I/O.
  The settings come in as a `Config` value.
- The `logging` calls. They are an output side channel only.
- The watchdog `Observer`, the startup creation of the downloads folder and
  the library root, and the idle loop with `KeyboardInterrupt`
  (Zip2KiCad.py:116-131). These are a foreign library, threads and signals.
  Because there is no event queue, processing events one after another in
  arrival order is not modelled.
- `time.sleep`, including the processing delay in `on_created`, and the
  float accumulation of `waited`. Time is counted in integer ticks.
- `Stability.IsStableFile` requires a positive interval. With an interval of
  0 and a positive `max_wait`, the source loop never times out; it still
  returns on a vanished file or on two equal non-zero samples.
- The sizes that `stat` reports are an oracle input. They are not tied to
  the modelled tree.
- The internals of `zipfile` (`namelist`, `extractall`, `BadZipFile`) are
  oracle inputs. Each member name is a single path component, so nested
  member paths and directory members are not modelled.
- `Files.AfterMove` does not model `shutil.move` into an existing directory,
  which nests the file inside it; the model makes that move raise instead.
  It also does not model copying across devices. An existing file at the
  target is replaced.
- `Files.AfterMkdirs` raises only when a file is in the way. Permission
  errors are not modelled.
- ".." components are not resolved.
- Unicode `str.lower()`. Only ASCII letters are lowercased.
- The archive oracle is not tied to the tree. `Environment` may say the
  archive opened when `zip_path` is absent or a directory. The source would
  raise at `ZipFile(...)` before creating the folder, while the model creates
  the folder and then raises at the move. Every lemma holds for such runs,
  but the model allows one run the source cannot take.
