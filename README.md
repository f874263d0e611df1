# Zstandard container extractors, modelled in Dafny

The repository holds three Python front ends for one job: pull Zstandard frames out of a
header-less game archive, decompress each one, guess its file type from magic bytes, drop
duplicates by fingerprint and write the payload into a per-category folder.

- `NpkUnlock_GUI.py` is the Qt tool. A worker object scans the archive. In serial mode it
  hands each frame to `extract_single_frame`, which checks a stop flag at four points.
- `NpkUnlocker.py` is the command-line version of the same pipeline.
- `PPKUnlocker.py` walks `.ppk` files differently. It cuts a window from each magic up to
  the next magic, capped at 20 MiB. It skips windows under 1 KiB. It deduplicates on the
  compressed window, using one set shared by every file.

The model has these modules:

- **`Base`**: byte strings and `Option`.
- **`Signature`**: the frame magic `28 B5 2F FD` (section 3.1.1 of RFC 8878). It defines
  `bytes.find` for this magic and the list of all occurrences.
- **`Scanner`**: the scan loop.
- **`Classifier`**: `detect_file_extension` and the two category maps. The detector is
  written identically in all three files, so it is modelled once. `NpkUnlocker.py` and
  `PPKUnlocker.py` share one category map.
- **`Naming`**: decimal rendering and the two output-name schemes, with proofs that both
  are injective.
- **`Files`**: an abstract output file system. It holds a set of directories and a map
  from path to bytes. Its `Disk` holds two fixed oracles. One decides whether `mkdir` of a
  missing folder raises. The other decides how a write to a path goes wrong: the `open`
  raises, or the write raises after some of the bytes reached the file. A healthy disk is
  one where neither oracle ever raises.
- **`Extraction`**: what is shared by the frame extractors:
  - the dedup set as a class;
  - the outcome of one frame;
  - the per-frame specification `FrameFits`;
  - the run specification `TraceFits`, the written-files function `Written` and the
    created-folders function `DirsMade`.
- **`Gui`**: the stop flag, the GUI's `extract_single_frame`, and the serial path of
  `ExtractWorker.run`. The signals it emits are modelled as a log of events.
- **`Cli`**: `NpkUnlocker.py`'s `extract_single_frame` and the serial branch of
  `extract_zstd_container`.
- **`Ppk`**: the window arithmetic, the per-block step and the walk of `process_ppk_file`.
- **`PpkBatch`**: the output-root choice, the PPK name filter, the per-file loop with its
  specification `BatchFits`, and the final tally of `main`.

Decompression and MD5 are foreign code. They are passed in as the two function fields of
`Extraction.Primitives`: decompression returns `None` when it raises, and the hash type is
a parameter. A run's outcomes are kept in a ghost trace, one outcome per frame or block.
The recursive specifications (`TraceFits`, `BlocksFit`, `Written`, `BlocksWritten`) say
what each step of that trace is, given everything before it: the fingerprints already seen,
the folders already present and the disk's oracles. The loops are proved against them.

## Model

| member | source | states |
|---|---|---|
| Signature.MagicAtIsSlice | NpkUnlock_GUI.py:113-117 | a magic at k is exactly the 4-byte slice at k equal to `28 B5 2F FD` |
| Signature.MagicNoOverlap | NpkUnlock_GUI.py:121 | two occurrences of the magic are at least 4 bytes apart, so the skip by `len(magic)` loses none |
| Signature.FindMagic | NpkUnlock_GUI.py:117 | `find` returns -1 or an occurrence at or after start, and no occurrence lies between start and the result |
| Signature.MagicPositionsSpec | NpkUnlock_GUI.py:112-122 | the occurrence list holds only occurrences, holds every occurrence, and strictly ascends |
| Signature.FindIsFirstPosition | NpkUnlock_GUI.py:117-120 | `find` returns -1 exactly when no occurrence remains; otherwise it returns the first remaining one |
| Signature.PositionsAfterMagic | NpkUnlock_GUI.py:121 | after an occurrence at p, restarting the search at p+4 skips no occurrence |
| Signature.PositionsSkip | PPKUnlocker.py:111-115 | restarting a search past a stretch without magic loses no occurrence |
| Scanner.ScanZstdFrames | NpkUnlock_GUI.py:112-122 | the loop returns every occurrence of the magic, in ascending order |
| Classifier.DetectFileExtension | NpkUnlock_GUI.py:85-109 | the label is one of the ten labels of the chain, starts with a dot unless empty, and is empty for empty input |
| Classifier.PrefixMatchLeadByte | NpkUnlock_GUI.py:88-105 | each prefix test can only pass on input that starts with that test's first magic byte |
| Classifier.PrefixMatchesExclusive | NpkUnlock_GUI.py:88-105 | no input passes two of the eight prefix tests |
| Classifier.DetectIsFirstMatch | NpkUnlock_GUI.py:85-109 | the label is the i-th prefix label exactly when the i-th test passes and none before it does |
| Classifier.PriorityUnfolded | NpkUnlock_GUI.py:88-105 | the priority table lists the tests in source order: mesh, PNG, KTX, DDS, RIFF/WAVE, BKHD, AKPK, Zstandard |
| Classifier.DetectPrefixLabel | NpkUnlock_GUI.py:88-105 | a prefix label is returned exactly when its own test passes: a leading `DDS` gives `.dds` whatever follows, and `.wem` needs `RIFF` at 0 and `WAVE` at 8 |
| Classifier.DetectTga | NpkUnlock_GUI.py:106-107 | `.tga` is returned exactly when no prefix test passes and the input ends with the 18-byte TGA footer |
| Classifier.DetectUnknown | NpkUnlock_GUI.py:108 | the empty label is returned exactly when no test passes |
| Classifier.CategoryLookupTotal | NpkUnlock_GUI.py:69-80 | every label is a key of both category maps, so `.get(ext, "未知文件")` never falls back; the empty label maps to the unknown category |
| Classifier.CategoryMapsCompared | PPKUnlocker.py:20-31 | the GUI's map and the other map differ only for audio, images and `.npk`, as listed |
| Naming.Decimal | NpkUnlock_GUI.py:165 | an integer renders as a non-empty run of digits |
| Naming.DecimalInjective | NpkUnlock_GUI.py:165 | different numbers render differently |
| Naming.DecimalLabelUnique | NpkUnlock_GUI.py:165 | a number followed by a label that does not start with a digit can be split back into both |
| Naming.FrameFileNameInjective | NpkUnlock_GUI.py:165 | `extracted_frame_{idx+1}{ext}` determines both the index and the label |
| Naming.BlockFileNameInjective | PPKUnlocker.py:150 | within one input file, `{file}_block{k}{ext}` determines both k and the label |
| Files.FileSystem.MakeDirs | NpkUnlock_GUI.py:164 | `mkdir(parents=True, exist_ok=True)` succeeds at once on an existing directory; on a missing one it raises exactly when the disk's mkdir oracle does, and otherwise adds the directory; it never touches files |
| Files.Leftover | NpkUnlock_GUI.py:171-172 | without a fault the file holds all the bytes; a refused `open` leaves nothing; any other fault leaves a prefix of the bytes |
| Files.FileSystem.WriteFile | NpkUnlock_GUI.py:171-172 | a write into a missing directory fails and touches nothing. Otherwise it raises exactly when the disk's write oracle does for that path; without a raise the file gets the bytes; an `open` that raises leaves it alone; a write that raises after the open leaves only the bytes written so far, a prefix of the contents, possibly empty. Directories are unchanged |
| Extraction.DedupIndex.Add | NpkUnlock_GUI.py:174 | the set gains exactly the added fingerprint |
| Extraction.FrameInfoPlacement | NpkUnlock_GUI.py:157-188 | a saved frame goes to root/category/`extracted_frame_{idx+1}{ext}` and its size is the payload length; without type detection the label is empty and the category is unknown |
| Extraction.FrameInfoPathsDistinct | NpkUnlock_GUI.py:162-166 | frames with different indices never share an output path |
| Extraction.CountExtracted | NpkUnlock_GUI.py:386-387 | the saved count never exceeds the number of frames handled, and equals it only when every frame was saved |
| Extraction.AdmittedHashesDistinct | NpkUnlock_GUI.py:149-155 | with dedup on, no two saved frames of a serial run share a fingerprint |
| Extraction.WrittenPathsDistinct | NpkUnlock_GUI.py:162-172 | no two frames of a run write the same path, whether their writes completed or broke off |
| Extraction.WrittenKeys | NpkUnlock_GUI.py:171-172 | after a run the file map's paths are the old ones plus those the frames wrote, completely or in part |
| Extraction.WrittenUntouched | NpkUnlock_GUI.py:171-172 | files that no frame wrote keep their contents |
| Extraction.HealthyFramesSaved | NpkUnlock_GUI.py:157-188 | on a healthy disk no frame fails at its mkdir or its write, and a frame that was not interrupted is saved exactly when it decompressed and, with dedup on, its fingerprint was not admitted by an earlier frame |
| Extraction.HealthyCountsDecoded | NpkUnlock_GUI.py:157-188 | without dedup, on a healthy disk and with no interruption, the saved count is the number of frames that decompress |
| Extraction.WrittenHolds | NpkUnlock_GUI.py:171-172 | at the end of the run every saved frame's file holds that frame's decompressed payload, and every file whose write broke off holds what reached it, a prefix of the payload |
| Extraction.WrittenFiles | NpkUnlock_GUI.py:171-172 | the facts above together: the files after a run |
| Extraction.DirsMadeUnderRoot | NpkUnlock_GUI.py:162-164 | every folder a run creates is a category folder of its map, directly under the output root |
| Gui.StopFlag.Raise | NpkUnlock_GUI.py:405-406 | raising the flag sets it |
| Gui.StopFlag.Poll | NpkUnlock_GUI.py:325 | a read of `_stop` reports the flag, which may have been raised meanwhile but is never cleared |
| Gui.ExtractSingleFrame | NpkUnlock_GUI.py:125-196 | the outcome is the one `FrameFits` determines from the payload, the fingerprints seen before, the folders present and the disk: a mkdir or a write fails exactly when the disk raises for that folder or path, and the frame is saved otherwise. A flag raised on entry interrupts at once, and an interruption happens exactly when the flag is up. A saved frame writes its payload; a write that raised leaves its file untouched or holding a prefix of the payload; no other outcome changes a file. The category folder is added exactly when the frame got past the mkdir, including a stop seen just before the write. Only a saved frame with dedup on adds its fingerprint, after the write |
| Gui.StepProgress | NpkUnlock_GUI.py:384-389 | one serial iteration emits exactly one progress value, its own position |
| Gui.FrameProgressCountsUp | NpkUnlock_GUI.py:376-389 | the progress values of a serial pass are 1, 2, …, n: they go up by one per frame |
| Gui.ExtractWorker.Stop | NpkUnlock_GUI.py:405-406 | `stop()` raises the worker's flag |
| Gui.ExtractWorker.ProcessFrame | NpkUnlock_GUI.py:378-389 | one loop iteration extends the trace by the outcome the disk and the folders present determine, and keeps the run state and the event log in step with it |
| Gui.ExtractWorker.ExtractFrames | NpkUnlock_GUI.py:376-389 | frames are handled in index order with one shared hash set. The count equals the saved outcomes. A stop on entry handles nothing, and stopping early means the flag is up. Only the last outcome can be an interruption, and an interruption means the flag was raised. Each outcome is the one `TraceFits` determines from the disk and the folders made by the frames before it. The files are what the frames wrote, and the folders gain the category folder of each frame that got past its mkdir. With dedup on, saved fingerprints are distinct |
| Gui.ExtractWorker.ExtractScanned | NpkUnlock_GUI.py:325-398 | a stop after the scan reports `finished(0)`, and so do zero frames, with no progress. Otherwise `progress(0, total)` comes first, then each frame's log, file and progress events, then the stopped or completed line and `finished(count)`. An interrupted last frame means the flag was raised. Files and folders change as the frames dictate |
| Gui.ExtractWorker.Run | NpkUnlock_GUI.py:297-398 | a missing input file only reports an error and changes no file or folder. Otherwise the start is logged, the input is scanned and the scanned frames are extracted as above, with an interrupted last frame only after the flag was raised |
| Cli.ExtractSingleFrame | NpkUnlocker.py:77-110 | decompress, dedup, classify, mkdir, write, then add the fingerprint. The outcome is the one `FrameFits` determines: the mkdir and the write fail exactly when the disk raises for that folder or path. Never interrupted. Only a saved frame adds a fingerprint. A saved frame writes its payload, a raising write leaves its file untouched or holding a prefix of the payload, and a duplicate, a decode error or a failed mkdir changes no file. The category folder is added exactly when the frame got past the mkdir |
| Cli.ExtractZstdContainer | NpkUnlocker.py:113-179 | every occurrence of the magic is handed on once, in ascending order. The returned count equals the saved outcomes, with none interrupted, and each outcome is the one `TraceFits` determines from the disk and the folders made before it. Saved fingerprints are pairwise distinct. The files are what the frames wrote, and the folders gain the category folder of each frame that got past its mkdir |
| Ppk.BlockEnd | PPKUnlocker.py:111-115 | a block ends after its magic and within the data, is at most 20 MiB long and holds no other magic; when neither limit cut it, it ends at the next magic |
| Ppk.BlocksDisjoint | PPKUnlocker.py:111-118 | each block ends at or before the next occurrence, so blocks never overlap |
| Ppk.Truncate | PPKUnlocker.py:168-173 | the reported error is a prefix of the message, at most 100 characters, and the whole message when it fits |
| Ppk.SavedCount | PPKUnlocker.py:157-158 | the saved count never exceeds the number of blocks handled |
| Ppk.FingerprintsFresh | PPKUnlocker.py:127-131 | every fingerprinted block is new to the shared set, and no two blocks of a walk are fingerprinted with the same value |
| Ppk.SavedCountGrows | PPKUnlocker.py:157-158 | a saved block's number is below the numbers of all blocks saved after it |
| Ppk.SavedPathsDiffer | PPKUnlocker.py:150-151 | a saved block of one file never shares a path with a later block that writes, whether that write completes or not |
| Ppk.SavedPathsDistinct | PPKUnlocker.py:150-151 | no two saved blocks of one walk share a path |
| Ppk.BlocksWrittenElsewhere | PPKUnlocker.py:154-155 | a path no block wrote keeps its presence and contents |
| Ppk.BlockWrittenHolds | PPKUnlocker.py:154-155 | every saved block's file holds that block's decompressed bytes at the end of the walk |
| Ppk.TornBlockHolds | PPKUnlocker.py:154-155 | when the walk ends on a write that raised after the open, that file holds what reached it, a prefix of the block's decompressed bytes |
| Ppk.BlocksWrittenUnderRoot | PPKUnlocker.py:145-155 | a walk neither creates nor changes a path outside its output root, and creates no folder outside it |
| Ppk.BlockDirsOf | PPKUnlocker.py:145-147 | a walk creates a folder exactly when some block got past creating that category folder |
| Ppk.WalkAdvance | PPKUnlocker.py:104-118 | the magic found from the offset is the next unvisited occurrence, and resuming at the block's end leaves exactly the later occurrences ahead |
| Ppk.WalkDone | PPKUnlocker.py:104-108 | when the search fails or the offset reaches the end, every occurrence has been visited |
| Ppk.ProcessBlock | PPKUnlocker.py:118-158 | the outcome is the one `BlockFits` determines from the block, the fingerprints seen, the folders present and the disk. A short block is skipped untouched, and a known fingerprint is skipped. Otherwise the fingerprint is added before decompression, so an undecodable block stays remembered. A decoded block is classified and saved as block number `block_idx` unless the disk raises at its mkdir or its write, which crashes the walk. A save writes the bytes, a write that raised leaves the file untouched or holding a prefix of them, and nothing else changes a file. The category folder is added exactly when the block got past the mkdir |
| Ppk.WalkOne | PPKUnlocker.py:106-159 | one round visits the next occurrence, advances the offset past its block, records the outcome the disk and the folders present determine, and keeps the walk state in step |
| Ppk.WalkBlocks | PPKUnlocker.py:100-166 | the walk visits each occurrence once, in order, and `block_idx` stays equal to the saved count. Each outcome is the one `BlocksFit` determines from the disk and the folders made before it, so a mkdir or a write raises exactly when the disk's oracle does. Files and folders change as the blocks dictate. Success means every occurrence was visited and no mkdir or write raised; it reports the number of occurrences and of saved blocks. A raise stops the walk and reports its message cut to 100 characters |
| Ppk.HealthyBlocksSaved | PPKUnlocker.py:118-158 | on a healthy disk no block crashes, and a block whose fingerprint was admitted is saved exactly when it decompresses |
| Ppk.HealthyFileSucceeds | PPKUnlocker.py:145-166 | on a healthy disk the walk of a readable file visits every occurrence and succeeds, reporting all of them as processed and its saved blocks as extracted |
| Ppk.ResultOfWalk | PPKUnlocker.py:160-173 | an unreadable file fails with its message cut to 100 characters; a readable one succeeds exactly when its walk visited every occurrence without a raise, and then reports the occurrences and at most as many saved blocks; a failure ends on a raise |
| Ppk.ProcessPpkFile | PPKUnlocker.py:88-173 | an unreadable file fails with its message cut to 100 characters and changes nothing. Otherwise the walk is the one the fingerprints seen before it, the folders present and the disk determine, its result is the one its outcomes give, success means every occurrence visited without a raise, a failure carries the raise's message cut to 100 characters, files, folders and fingerprints change as the blocks dictate, and on a healthy disk a readable file always succeeds |
| PpkBatch.PpkFilesOnly | PPKUnlocker.py:218-221 | only regular files with eight-letter-or-digit names are selected |
| PpkBatch.PpkFilesCount | PPKUnlocker.py:218-221 | every such file is selected, as often as it is listed, and nothing else |
| PpkBatch.SaveNamesDisjoint | PPKUnlocker.py:150 | blocks saved from two different PPK files never get the same name |
| PpkBatch.CollectPpkFiles | PPKUnlocker.py:218-221 | the collection loop yields the selection, in listing order |
| PpkBatch.TotalPermutation | PPKUnlocker.py:241-249 | the totals do not depend on the order in which the thread pool completes files |
| PpkBatch.FailedAtMostFiles | PPKUnlocker.py:252-261 | the failed count is at most the number of results, and equals it only when every file failed |
| PpkBatch.ExtractedAtMostProcessed | PPKUnlocker.py:252-261 | when no file extracted more than it processed, neither do the totals |
| PpkBatch.Tally | PPKUnlocker.py:252-261 | the totals sum `processed` and `extracted` over successful results and count the failed ones |
| PpkBatch.CrossFileFingerprintsDiffer | PPKUnlocker.py:127-131 | blocks fingerprinted in two different files never share a fingerprint |
| PpkBatch.BatchFingerprintsFresh | PPKUnlocker.py:127-131 | with the one shared set, no fingerprint is admitted twice in a run, within a file or across files |
| PpkBatch.BatchWrittenUnderRoot | PPKUnlocker.py:145-155 | processing the files neither creates nor changes a path outside the output root, and creates no folder outside it |
| PpkBatch.BatchResults | PPKUnlocker.py:160-173 | each result names its file; an unreadable file fails with its error cut to 100 characters; a success reports every occurrence in the file's bytes as processed and no more extracted than processed |
| PpkBatch.HealthyBatchSucceeds | PPKUnlocker.py:231-249 | on a healthy disk every readable file's result is a success reporting all its occurrences |
| PpkBatch.WalkFiles | PPKUnlocker.py:231-249 | each selected file is walked in turn against the fingerprints of the files before it and the folders they made, on the one disk, and its result is the one its walk gives; files and folders change as the walks dictate |
| PpkBatch.ExtractDirectory | PPKUnlocker.py:202-261 | the output root is the argument, else the configured default, else the `Output` folder of the PPK directory. No PPK file ends the run with nothing found. Otherwise each selected file yields one result, in order, tied to that file's read and walk: unreadable files fail with their message cut to 100 characters, and successes report every occurrence as processed. On a healthy disk every readable file succeeds. No fingerprint is admitted twice across files. Nothing outside the output root is created or changed. The report holds the file count and the tallies; failures never exceed files, and extracted never exceeds processed |

## Left out

- Zstandard decompression and MD5 are not modelled. They are the two functions of
  `Extraction.Primitives`, and a raising decompressor is `None`. Any effect of a hash
  collision on dedup is therefore outside the model.
- Parallel execution is left out:
  - the GUI's fast mode (NpkUnlock_GUI.py:344-375);
  - the `FAST_MODE` branch of `extract_zstd_container`, which is the branch the shipped
    constant selects when there are frames;
  - the thread pool of PPKUnlocker's `main`.

  Their check-then-add on the hash sets is not atomic, so no dedup property holds for
  them. `PpkBatch.ExtractDirectory` processes the selected files one after another in
  listing order. `PpkBatch.TotalPermutation` covers the arbitrary completion order of
  `as_completed`.
- Reading input files is a parameter: the contents, or a missing or unreadable file.
  Also left out:
  - the output-root `makedirs` at NpkUnlock_GUI.py:304-305, NpkUnlocker.py:115-116 and
    PPKUnlocker.py:214; category folders are created with `parents=True`, so nothing
    downstream depends on them;
  - file sizes, `shutil`, and opening folders.
- Console and log text are left out: the timestamps, the wording of messages, and the
  `{frame_idx+1:04d}` prefix. The GUI's signals become `Gui.Event` values with an outcome
  datatype in place of the message text.
- Floating-point sizes and percentages are left out.
- All of the PyQt user interface, settings persistence, process supervision and the
  automatic `pip install` are left out.
- Command-line argument checking (PPKUnlocker.py:192-201) and the hard-coded paths of
  NpkUnlocker.py:183-191 are left out.
- The GUI worker's catch-all exception handler (NpkUnlock_GUI.py:400-403) is left out.
  `main`'s guard around `future.result()` (PPKUnlocker.py:238-249) is left out too,
  because `process_ppk_file` already catches everything.
- PpkBatch.IsAlnum: tests ASCII letters and digits only. Python's `str.isalnum` also
  accepts non-ASCII letters and digits, and character classes are not modelled.
- Gui.StopFlag.Poll: a read of `_stop` may see the flag raised at any moment. The model
  picks the value nondeterministically and cannot say when the UI thread raises it.
- The MD5 digest is the abstract hash value itself; its hex string form is not modelled.
- The `Output` folder is joined to the PPK directory with `/`. `pathlib` uses the
  platform's separator, and path syntax is not modelled.
- Files.FileSystem.WriteFile: how many bytes reach the file before a write raises is a
  fixed number per path, chosen by the oracle; what the disk does is not modelled.
