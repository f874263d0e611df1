/**
 * The PPK extractor's `main`: choose the output root, pick the PPK files out of a directory
 * listing, run `process_ppk_file` on each with one shared fingerprint set, and add up the
 * per-file results into the final report.
 */
module PpkBatch {
  import opened Base
  import opened Signature
  import opened Naming
  import opened Files
  import opened Extraction
  import opened Ppk

  /** A PPK file's name is exactly eight characters long. */
  const PPK_NAME_LENGTH: nat := 8
  /** The script's configured fallback output directory, shipped unset. */
  const DEFAULT_OUTPUT_DIR: Option<string> := None

  /**
   * The output root: an explicit second argument wins, then the configured default
   * (`defaultDir`, which the script takes from DEFAULT_OUTPUT_DIR), and otherwise the
   * `Output` folder inside the PPK directory.
   */
  function OutputRoot(ppkDir: string, custom: Option<string>, defaultDir: Option<string>): string {
    if custom.Some? then custom.value
    else if defaultDir.Some? then defaultDir.value
    else ppkDir + "/Output"
  }

  /** One entry of the PPK directory's listing. */
  datatype Entry = Entry(name: string, isFile: bool)

  /** `str.isalnum` on one character, over ASCII letters and digits. */
  predicate IsAlnum(c: char) {
    IsDigit(c) || ('a' <= c <= 'z') || ('A' <= c <= 'Z')
  }

  /** A regular file whose name is eight letters or digits. */
  predicate IsPpkFile(e: Entry) {
    e.isFile && |e.name| == PPK_NAME_LENGTH && forall k :: 0 <= k < |e.name| ==> IsAlnum(e.name[k])
  }

  /** The PPK files of a listing, in listing order. */
  function PpkFiles(entries: seq<Entry>): seq<Entry> {
    if entries == [] then []
    else PpkFiles(entries[..|entries| - 1]) + (if IsPpkFile(entries[|entries| - 1]) then [entries[|entries| - 1]] else [])
  }

  /** Only PPK files are selected, and never more entries than listed. */
  lemma {:induction false} PpkFilesOnly(entries: seq<Entry>)
    ensures forall e :: e in PpkFiles(entries) ==> IsPpkFile(e)
    ensures |PpkFiles(entries)| <= |entries|
    decreases |entries|
  {
    if entries != [] {
      PpkFilesOnly(entries[..|entries| - 1]);
    }
  }

  /** Each PPK file is selected as often as it is listed, and nothing else is selected. */
  lemma {:induction false} PpkFilesCount(entries: seq<Entry>, e: Entry)
    ensures multiset(PpkFiles(entries))[e] == if IsPpkFile(e) then multiset(entries)[e] else 0
    decreases |entries|
  {
    if entries != [] {
      var n := |entries| - 1;
      PpkFilesCount(entries[..n], e);
      assert entries == entries[..n] + [entries[n]];
    }
  }

  /**
   * Blocks saved from two different PPK files never collide, whatever their numbers and
   * types: the names start with the files' own eight-character names.
   */
  lemma SaveNamesDisjoint(e1: Entry, i: nat, x1: string, e2: Entry, j: nat, x2: string)
    requires IsPpkFile(e1) && IsPpkFile(e2) && e1.name != e2.name
    ensures BlockFileName(e1.name, i, x1) != BlockFileName(e2.name, j, x2)
  {
    assert BlockFileName(e1.name, i, x1)[..PPK_NAME_LENGTH] == e1.name;
    assert BlockFileName(e2.name, j, x2)[..PPK_NAME_LENGTH] == e2.name;
  }

  /** The collection loop over the directory listing. */
  method CollectPpkFiles(entries: seq<Entry>) returns (ppkFiles: seq<Entry>)
    ensures ppkFiles == PpkFiles(entries)
  {
    ppkFiles := [];
    for i := 0 to |entries|
      invariant ppkFiles == PpkFiles(entries[..i])
    {
      assert entries[..i + 1][..i] == entries[..i];
      if IsPpkFile(entries[i]) {
        ppkFiles := ppkFiles + [entries[i]];
      }
    }
    assert entries[..|entries|] == entries;
  }

  /** What one file contributes to the processed total. */
  function ProcessedOf(r: PpkResult): nat {
    if r.Success? then r.processed else 0
  }

  /** What one file contributes to the extracted total. */
  function ExtractedOf(r: PpkResult): nat {
    if r.Success? then r.extracted else 0
  }

  /** What one file contributes to the failed-file count. */
  function FailedOf(r: PpkResult): nat {
    if r.Failure? then 1 else 0
  }

  /** The sum of a per-file quantity over a list of results. */
  function Total(rs: seq<PpkResult>, f: PpkResult -> nat): nat {
    if rs == [] then 0 else f(rs[0]) + Total(rs[1..], f)
  }

  lemma {:induction false} TotalAppend(a: seq<PpkResult>, b: seq<PpkResult>, f: PpkResult -> nat)
    ensures Total(a + b, f) == Total(a, f) + Total(b, f)
    decreases |a|
  {
    if a != [] {
      assert (a + b)[1..] == a[1..] + b;
      TotalAppend(a[1..], b, f);
    } else {
      assert a + b == b;
    }
  }

  /** Total is unchanged by taking one element out to the front. */
  lemma TotalRemove(b: seq<PpkResult>, k: nat, f: PpkResult -> nat)
    requires k < |b|
    ensures Total(b, f) == f(b[k]) + Total(b[..k] + b[k + 1..], f)
  {
    assert b == b[..k] + [b[k]] + b[k + 1..];
    TotalAppend(b[..k] + [b[k]], b[k + 1..], f);
    TotalAppend(b[..k], [b[k]], f);
    TotalAppend(b[..k], b[k + 1..], f);
  }

  /** Removing matching elements from two permutations of each other leaves permutations. */
  lemma MultisetRemove(a: seq<PpkResult>, b: seq<PpkResult>, k: nat)
    requires multiset(a) == multiset(b) && a != [] && k < |b| && b[k] == a[0]
    ensures multiset(a[1..]) == multiset(b[..k] + b[k + 1..])
  {
    var rest := b[..k] + b[k + 1..];
    assert a == [a[0]] + a[1..];
    assert b == b[..k] + [b[k]] + b[k + 1..];
    assert multiset(b) == multiset([b[k]]) + multiset(rest);
    assert multiset(a) == multiset([a[0]]) + multiset(a[1..]);
    forall x ensures multiset(a[1..])[x] == multiset(rest)[x] {
      assert multiset(a)[x] == multiset([a[0]])[x] + multiset(a[1..])[x];
      assert multiset(b)[x] == multiset([a[0]])[x] + multiset(rest)[x];
    }
  }

  /**
   * Results arrive in completion order, which the thread pool does not fix: any
   * reordering of the same results gives the same totals.
   */
  lemma {:induction false} TotalPermutation(a: seq<PpkResult>, b: seq<PpkResult>, f: PpkResult -> nat)
    requires multiset(a) == multiset(b)
    ensures Total(a, f) == Total(b, f)
    decreases |a|
  {
    if a != [] {
      assert a[0] in multiset(b);
      var k :| 0 <= k < |b| && b[k] == a[0];
      MultisetRemove(a, b, k);
      TotalPermutation(a[1..], b[..k] + b[k + 1..], f);
      TotalRemove(b, k, f);
    } else {
      assert |b| == |multiset(b)| == 0;
    }
  }

  /** A file fails or succeeds, so the failed count never exceeds the number of files. */
  lemma {:induction false} FailedAtMostFiles(rs: seq<PpkResult>)
    ensures Total(rs, FailedOf) <= |rs|
    ensures Total(rs, FailedOf) == |rs| <==> forall k :: 0 <= k < |rs| ==> rs[k].Failure?
    decreases |rs|
  {
    if rs != [] {
      FailedAtMostFiles(rs[1..]);
      assert forall k :: 1 <= k < |rs| ==> rs[k] == rs[1..][k - 1];
    }
  }

  /** When no file extracts more blocks than it processed, neither does the whole run. */
  lemma {:induction false} ExtractedAtMostProcessed(rs: seq<PpkResult>)
    requires forall k :: 0 <= k < |rs| && rs[k].Success? ==> rs[k].extracted <= rs[k].processed
    ensures Total(rs, ExtractedOf) <= Total(rs, ProcessedOf)
    decreases |rs|
  {
    if rs != [] {
      assert forall k :: 0 <= k < |rs| - 1 ==> rs[1..][k] == rs[k + 1];
      ExtractedAtMostProcessed(rs[1..]);
    }
  }

  /** The final tally loop over the collected results. */
  method Tally(results: seq<PpkResult>) returns (totalProcessed: nat, totalExtracted: nat, failedFiles: nat)
    ensures totalProcessed == Total(results, ProcessedOf)
    ensures totalExtracted == Total(results, ExtractedOf)
    ensures failedFiles == Total(results, FailedOf)
  {
    totalProcessed, totalExtracted, failedFiles := 0, 0, 0;
    for i := 0 to |results|
      invariant totalProcessed == Total(results[..i], ProcessedOf)
      invariant totalExtracted == Total(results[..i], ExtractedOf)
      invariant failedFiles == Total(results[..i], FailedOf)
    {
      assert results[..i + 1] == results[..i] + [results[i]];
      TotalAppend(results[..i], [results[i]], ProcessedOf);
      TotalAppend(results[..i], [results[i]], ExtractedOf);
      TotalAppend(results[..i], [results[i]], FailedOf);
      if results[i].Success? {
        totalProcessed := totalProcessed + results[i].processed;
        totalExtracted := totalExtracted + results[i].extracted;
      } else {
        failedFiles := failedFiles + 1;
      }
    }
    assert results[..|results|] == results;
  }

  /** The fingerprints admitted while walking the files of `traces`, one file after another. */
  function AllFingerprints<H>(traces: seq<seq<BlockOutcome<H>>>): set<H> {
    if traces == [] then {}
    else AllFingerprints(traces[..|traces| - 1]) + Fingerprints(traces[|traces| - 1])
  }

  /** The category folders created while walking the files of `traces`. */
  function BatchDirs<H>(traces: seq<seq<BlockOutcome<H>>>): set<Dir> {
    if traces == [] then {}
    else BatchDirs(traces[..|traces| - 1]) + BlockDirs(traces[|traces| - 1])
  }

  /** File k of the selection was walked after files 0..k-1, against the fingerprints they admitted. */
  ghost predicate BatchFits<H>(traces: seq<seq<BlockOutcome<H>>>, ppk: seq<Entry>, read: string -> FileRead,
                               prims: Primitives<H>, disk: Disk, dirs0: set<Dir>, outputRoot: string)
    decreases |traces|
  {
    |traces| <= |ppk| &&
    (traces != [] ==>
       var n := |traces| - 1;
       BatchFits(traces[..n], ppk, read, prims, disk, dirs0, outputRoot) &&
       FileWalk(traces[n], prims, disk, dirs0 + BatchDirs(traces[..n]), outputRoot, ppk[n].name, read(ppk[n].name), AllFingerprints(traces[..n])))
  }

  /** A walk that fits has no more blocks than its data has occurrences. */
  lemma FileWalkBounded<H>(trace: seq<BlockOutcome<H>>, prims: Primitives<H>, disk: Disk, dirs0: set<Dir>, outputRoot: string,
                           fileName: string, input: FileRead, seen0: set<H>)
    requires FileWalk(trace, prims, disk, dirs0, outputRoot, fileName, input, seen0)
    ensures BlocksFit(trace, prims, disk, dirs0, outputRoot, fileName, DataOf(input), seen0)
    ensures |trace| <= |AllMagicPositions(DataOf(input))|
  {
  }

  /** The files after the walks of `traces` have written over files0, file after file. */
  ghost function BatchWritten<H>(files0: map<Path, Bytes>, traces: seq<seq<BlockOutcome<H>>>, ppk: seq<Entry>,
                                 read: string -> FileRead, prims: Primitives<H>, disk: Disk, dirs0: set<Dir>, outputRoot: string): map<Path, Bytes>
    requires BatchFits(traces, ppk, read, prims, disk, dirs0, outputRoot)
    decreases |traces|
  {
    if traces == [] then files0
    else
      var n := |traces| - 1;
      var input := read(ppk[n].name);
      FileWalkBounded(traces[n], prims, disk, dirs0 + BatchDirs(traces[..n]), outputRoot, ppk[n].name, input, AllFingerprints(traces[..n]));
      BlocksWritten(BatchWritten(files0, traces[..n], ppk, read, prims, disk, dirs0, outputRoot), traces[n], prims, DataOf(input))
  }

  lemma {:induction false} BatchFitsAt<H>(traces: seq<seq<BlockOutcome<H>>>, ppk: seq<Entry>, read: string -> FileRead,
                                          prims: Primitives<H>, disk: Disk, dirs0: set<Dir>, outputRoot: string, k: nat)
    requires BatchFits(traces, ppk, read, prims, disk, dirs0, outputRoot) && k < |traces|
    ensures k < |ppk|
    ensures FileWalk(traces[k], prims, disk, dirs0 + BatchDirs(traces[..k]), outputRoot, ppk[k].name, read(ppk[k].name), AllFingerprints(traces[..k]))
    decreases |traces|
  {
    var n := |traces| - 1;
    if k < n {
      BatchFitsAt(traces[..n], ppk, read, prims, disk, dirs0, outputRoot, k);
      assert traces[..n][..k] == traces[..k];
    }
  }

  /** What file k admitted is in the set before file j, for every later j. */
  lemma {:induction false} AllFingerprintsGrow<H>(traces: seq<seq<BlockOutcome<H>>>, k: nat, j: nat)
    requires k < j <= |traces|
    ensures Fingerprints(traces[k]) <= AllFingerprints(traces[..j])
    decreases j
  {
    var t := traces[..j];
    assert t[..j - 1] == traces[..j - 1];
    if k < j - 1 {
      AllFingerprintsGrow(traces, k, j - 1);
    }
  }

  /** Blocks fingerprinted in two different files never share a fingerprint. */
  lemma CrossFileFingerprintsDiffer<H>(traces: seq<seq<BlockOutcome<H>>>, ppk: seq<Entry>, read: string -> FileRead,
                                       prims: Primitives<H>, disk: Disk, dirs0: set<Dir>, outputRoot: string, k1: nat, i: nat, k2: nat, j: nat)
    requires BatchFits(traces, ppk, read, prims, disk, dirs0, outputRoot) && k1 < k2 < |traces|
    requires i < |traces[k1]| && traces[k1][i].Admits()
    requires j < |traces[k2]| && traces[k2][j].Admits()
    ensures traces[k1][i].hash != traces[k2][j].hash
  {
    FingerprintKept(traces[k1], i);
    AllFingerprintsGrow(traces, k1, k2);
    BatchFitsAt(traces, ppk, read, prims, disk, dirs0, outputRoot, k2);
    var input := read(ppk[k2].name);
    FingerprintsFresh(traces[k2], prims, disk, dirs0 + BatchDirs(traces[..k2]), outputRoot, ppk[k2].name, input.data, AllFingerprints(traces[..k2]));
  }

  /**
   * `DUPLICATE_MD5` is shared by every file of the run: no fingerprint is admitted twice,
   * within one file or across two.
   */
  lemma BatchFingerprintsFresh<H>(traces: seq<seq<BlockOutcome<H>>>, ppk: seq<Entry>, read: string -> FileRead,
                                  prims: Primitives<H>, disk: Disk, dirs0: set<Dir>, outputRoot: string)
    requires BatchFits(traces, ppk, read, prims, disk, dirs0, outputRoot)
    ensures forall k1, i, k2, j :: 0 <= k1 < k2 < |traces| && 0 <= i < |traces[k1]| && 0 <= j < |traces[k2]| &&
              traces[k1][i].Admits() && traces[k2][j].Admits()
              ==> traces[k1][i].hash != traces[k2][j].hash
    ensures forall k, i, j :: 0 <= k < |traces| && 0 <= i < j < |traces[k]| &&
              traces[k][i].Admits() && traces[k][j].Admits()
              ==> traces[k][i].hash != traces[k][j].hash
  {
    forall k1, i, k2, j | 0 <= k1 < k2 < |traces| && 0 <= i < |traces[k1]| && 0 <= j < |traces[k2]| &&
                          traces[k1][i].Admits() && traces[k2][j].Admits()
      ensures traces[k1][i].hash != traces[k2][j].hash
    {
      CrossFileFingerprintsDiffer(traces, ppk, read, prims, disk, dirs0, outputRoot, k1, i, k2, j);
    }
    forall k | 0 <= k < |traces|
      ensures forall i, j :: 0 <= i < j < |traces[k]| && traces[k][i].Admits() && traces[k][j].Admits() ==>
                traces[k][i].hash != traces[k][j].hash
    {
      BatchFitsAt(traces, ppk, read, prims, disk, dirs0, outputRoot, k);
      FileWalkBounded(traces[k], prims, disk, dirs0 + BatchDirs(traces[..k]), outputRoot, ppk[k].name, read(ppk[k].name), AllFingerprints(traces[..k]));
      FingerprintsFresh(traces[k], prims, disk, dirs0 + BatchDirs(traces[..k]), outputRoot, ppk[k].name, DataOf(read(ppk[k].name)), AllFingerprints(traces[..k]));
    }
  }

  /** A path outside the output root is neither created nor changed, and no folder outside it is made. */
  lemma {:induction false} BatchWrittenUnderRoot<H>(files0: map<Path, Bytes>, traces: seq<seq<BlockOutcome<H>>>,
                                                    ppk: seq<Entry>, read: string -> FileRead, prims: Primitives<H>, disk: Disk, dirs0: set<Dir>,
                                                    outputRoot: string, p: Path)
    requires BatchFits(traces, ppk, read, prims, disk, dirs0, outputRoot) && p.dir.root != outputRoot
    ensures var files := BatchWritten(files0, traces, ppk, read, prims, disk, dirs0, outputRoot);
      (p in files <==> p in files0) && (p in files0 ==> files[p] == files0[p])
    ensures p.dir !in BatchDirs(traces)
    decreases |traces|
  {
    if traces != [] {
      var n := |traces| - 1;
      BatchWrittenUnderRoot(files0, traces[..n], ppk, read, prims, disk, dirs0, outputRoot, p);
      var input := read(ppk[n].name);
      FileWalkBounded(traces[n], prims, disk, dirs0 + BatchDirs(traces[..n]), outputRoot, ppk[n].name, input, AllFingerprints(traces[..n]));
      BlocksWrittenUnderRoot(BatchWritten(files0, traces[..n], ppk, read, prims, disk, dirs0, outputRoot), traces[n], prims,
                             disk, dirs0 + BatchDirs(traces[..n]), outputRoot, ppk[n].name, DataOf(input), AllFingerprints(traces[..n]), p);
    }
  }

  /**
   * What each file's result says: it names its file, an unreadable file fails with its
   * error cut to 100 characters, and a success reports every occurrence in the file's
   * bytes as processed, with no more extracted than processed.
   */
  lemma BatchResults<H>(results: seq<PpkResult>, traces: seq<seq<BlockOutcome<H>>>, ppk: seq<Entry>,
                        read: string -> FileRead, prims: Primitives<H>, disk: Disk, dirs0: set<Dir>, outputRoot: string)
    requires BatchFits(traces, ppk, read, prims, disk, dirs0, outputRoot) && |results| == |traces|
    requires forall k :: 0 <= k < |results| ==> results[k] == ResultOf(ppk[k].name, read(ppk[k].name), traces[k])
    ensures forall k :: 0 <= k < |results| ==> results[k].file == ppk[k].name
    ensures forall k :: 0 <= k < |results| && read(ppk[k].name).Unreadable? ==>
              results[k] == Failure(ppk[k].name, Truncate(read(ppk[k].name).error))
    ensures forall k :: 0 <= k < |results| && read(ppk[k].name).Contents? && results[k].Success? ==>
              results[k].processed == |AllMagicPositions(read(ppk[k].name).data)|
    ensures forall k :: 0 <= k < |results| && results[k].Success? ==> results[k].extracted <= results[k].processed
  {
    forall k | 0 <= k < |results|
      ensures results[k].file == ppk[k].name
      ensures read(ppk[k].name).Contents? && results[k].Success? ==>
                results[k].processed == |AllMagicPositions(read(ppk[k].name).data)|
      ensures results[k].Success? ==> results[k].extracted <= results[k].processed
    {
      BatchFitsAt(traces, ppk, read, prims, disk, dirs0, outputRoot, k);
      ResultOfWalk(traces[k], prims, disk, dirs0 + BatchDirs(traces[..k]), outputRoot, ppk[k].name, read(ppk[k].name), AllFingerprints(traces[..k]));
    }
  }

  /** On a disk where nothing raises, every readable file's walk succeeds and reports all its occurrences. */
  lemma HealthyBatchSucceeds<H>(traces: seq<seq<BlockOutcome<H>>>, ppk: seq<Entry>, read: string -> FileRead,
                                prims: Primitives<H>, disk: Disk, dirs0: set<Dir>, outputRoot: string)
    requires BatchFits(traces, ppk, read, prims, disk, dirs0, outputRoot) && disk.Healthy()
    ensures forall k :: 0 <= k < |traces| && read(ppk[k].name).Contents? ==>
              ResultOf(ppk[k].name, read(ppk[k].name), traces[k]) ==
              Success(ppk[k].name, |AllMagicPositions(read(ppk[k].name).data)|, SavedCount(traces[k]))
  {
    forall k | 0 <= k < |traces| && read(ppk[k].name).Contents?
      ensures ResultOf(ppk[k].name, read(ppk[k].name), traces[k]) ==
              Success(ppk[k].name, |AllMagicPositions(read(ppk[k].name).data)|, SavedCount(traces[k]))
    {
      BatchFitsAt(traces, ppk, read, prims, disk, dirs0, outputRoot, k);
      HealthyFileSucceeds(traces[k], prims, disk, dirs0 + BatchDirs(traces[..k]), outputRoot, ppk[k].name,
                          read(ppk[k].name).data, AllFingerprints(traces[..k]));
    }
  }

  /** What the walks of the files of `traces` have built over files0 and dirs0. */
  ghost predicate BatchState<H>(traces: seq<seq<BlockOutcome<H>>>, ppk: seq<Entry>, read: string -> FileRead,
                                prims: Primitives<H>, disk: Disk, outputRoot: string, files0: map<Path, Bytes>, dirs0: set<Dir>,
                                seen: set<H>, files: map<Path, Bytes>, dirs: set<Dir>)
  {
    && BatchFits(traces, ppk, read, prims, disk, dirs0, outputRoot)
    && seen == AllFingerprints(traces)
    && files == BatchWritten(files0, traces, ppk, read, prims, disk, dirs0, outputRoot)
    && dirs == dirs0 + BatchDirs(traces)
  }

  lemma BatchStep<H>(traces: seq<seq<BlockOutcome<H>>>, trace: seq<BlockOutcome<H>>, ppk: seq<Entry>,
                     read: string -> FileRead, prims: Primitives<H>, disk: Disk, outputRoot: string,
                     files0: map<Path, Bytes>, dirs0: set<Dir>, seen: set<H>, files: map<Path, Bytes>, dirs: set<Dir>,
                     seen': set<H>, files': map<Path, Bytes>, dirs': set<Dir>)
    requires |traces| < |ppk|
    requires BatchState(traces, ppk, read, prims, disk, outputRoot, files0, dirs0, seen, files, dirs)
    requires FileWalk(trace, prims, disk, dirs, outputRoot, ppk[|traces|].name, read(ppk[|traces|].name), seen)
    requires seen' == seen + Fingerprints(trace)
    requires files' == BlocksWritten(files, trace, prims, DataOf(read(ppk[|traces|].name)))
    requires dirs' == dirs + BlockDirs(trace)
    ensures BatchState(traces + [trace], ppk, read, prims, disk, outputRoot, files0, dirs0, seen', files', dirs')
  {
    FileWalkBounded(trace, prims, disk, dirs, outputRoot, ppk[|traces|].name, read(ppk[|traces|].name), seen);
    var t := traces + [trace];
    assert t[..|traces|] == traces;
  }

  /**
   * The processing loop of `main`, one file after another: each file is read and walked
   * with the one fingerprint set, and its result kept in selection order.
   */
  method WalkFiles<H(==)>(ppk: seq<Entry>, read: string -> FileRead, outputRoot: string,
                          prims: Primitives<H>, fs: FileSystem)
    returns (results: seq<PpkResult>, ghost traces: seq<seq<BlockOutcome<H>>>)
    modifies fs
    ensures |results| == |traces| == |ppk|
    ensures BatchState(traces, ppk, read, prims, fs.disk, outputRoot, old(fs.files), old(fs.dirs),
                       AllFingerprints(traces), fs.files, fs.dirs)
    ensures forall k :: 0 <= k < |results| ==> results[k] == ResultOf(ppk[k].name, read(ppk[k].name), traces[k])
  {
    var duplicates := new DedupIndex<H>();
    ghost var files0, dirs0 := fs.files, fs.dirs;
    results, traces := [], [];
    for i := 0 to |ppk|
      invariant |results| == |traces| == i
      invariant fresh(duplicates)
      invariant BatchState(traces, ppk, read, prims, fs.disk, outputRoot, files0, dirs0, duplicates.seen, fs.files, fs.dirs)
      invariant forall k :: 0 <= k < i ==> results[k] == ResultOf(ppk[k].name, read(ppk[k].name), traces[k])
    {
      var name := ppk[i].name;
      ghost var before := (duplicates.seen, fs.files, fs.dirs);
      var r, trace := ProcessPpkFile(name, read(name), outputRoot, duplicates, prims, fs);
      BatchStep(traces, trace, ppk, read, prims, fs.disk, outputRoot, files0, dirs0, before.0, before.1, before.2,
                duplicates.seen, fs.files, fs.dirs);
      results := results + [r];
      traces := traces + [trace];
    }
  }

  /** How a run of the extractor over a directory ends. */
  datatype Report =
    | NothingFound
    | Finished(totalFiles: nat, failedFiles: nat, totalProcessed: nat, totalExtracted: nat)

  /**
   * `main` after its arguments are checked: choose the output root, collect the PPK files,
   * stop when there are none, otherwise process each of them with one fingerprint set
   * shared by all files and report the totals. Each result belongs to the file in the same
   * place of the selection, and nothing outside the output root is created or changed.
   */
  method ExtractDirectory<H(==)>(entries: seq<Entry>, ppkDir: string, custom: Option<string>,
                                 read: string -> FileRead, prims: Primitives<H>, fs: FileSystem)
    returns (report: Report, results: seq<PpkResult>, ghost traces: seq<seq<BlockOutcome<H>>>)
    modifies fs
    ensures var ppk := PpkFiles(entries);
      var root := OutputRoot(ppkDir, custom, DEFAULT_OUTPUT_DIR);
      && (report.NothingFound? <==> ppk == [])
      && |results| == |traces| == |ppk|
      && BatchState(traces, ppk, read, prims, fs.disk, root, old(fs.files), old(fs.dirs), AllFingerprints(traces), fs.files, fs.dirs)
      && (forall k :: 0 <= k < |results| ==> results[k] == ResultOf(ppk[k].name, read(ppk[k].name), traces[k]))
      && (report.Finished? ==>
            report == Finished(|ppk|, Total(results, FailedOf), Total(results, ProcessedOf), Total(results, ExtractedOf)))
      && (report.Finished? ==> report.failedFiles <= report.totalFiles && report.totalExtracted <= report.totalProcessed)
    ensures var ppk := PpkFiles(entries);
      && (forall k :: 0 <= k < |results| ==> results[k].file == ppk[k].name)
      && (forall k :: 0 <= k < |results| && read(ppk[k].name).Unreadable? ==>
            results[k] == Failure(ppk[k].name, Truncate(read(ppk[k].name).error)))
      && (forall k :: 0 <= k < |results| && read(ppk[k].name).Contents? && results[k].Success? ==>
            results[k].processed == |AllMagicPositions(read(ppk[k].name).data)|)
    ensures forall k1, i, k2, j :: 0 <= k1 < k2 < |traces| && 0 <= i < |traces[k1]| && 0 <= j < |traces[k2]| &&
              traces[k1][i].Admits() && traces[k2][j].Admits()
              ==> traces[k1][i].hash != traces[k2][j].hash
    ensures var ppk := PpkFiles(entries);
      fs.disk.Healthy() ==> forall k :: 0 <= k < |results| && read(ppk[k].name).Contents? ==>
        results[k] == Success(ppk[k].name, |AllMagicPositions(read(ppk[k].name).data)|, SavedCount(traces[k]))
    ensures var root := OutputRoot(ppkDir, custom, DEFAULT_OUTPUT_DIR);
      forall p: Path :: p.dir.root != root ==>
        (p in fs.files <==> p in old(fs.files)) && (p in old(fs.files) ==> fs.files[p] == old(fs.files)[p])
    ensures var root := OutputRoot(ppkDir, custom, DEFAULT_OUTPUT_DIR);
      forall d :: d in fs.dirs && d !in old(fs.dirs) ==> d.root == root
  {
    var outputRoot := OutputRoot(ppkDir, custom, DEFAULT_OUTPUT_DIR);
    var ppkFiles := CollectPpkFiles(entries);
    ghost var files0, dirs0 := fs.files, fs.dirs;
    if ppkFiles == [] {
      return NothingFound, [], [];
    }
    results, traces := WalkFiles(ppkFiles, read, outputRoot, prims, fs);
    BatchResults(results, traces, ppkFiles, read, prims, fs.disk, dirs0, outputRoot);
    BatchFingerprintsFresh(traces, ppkFiles, read, prims, fs.disk, dirs0, outputRoot);
    if fs.disk.Healthy() {
      HealthyBatchSucceeds(traces, ppkFiles, read, prims, fs.disk, dirs0, outputRoot);
    }
    forall p: Path | p.dir.root != outputRoot
      ensures (p in fs.files <==> p in files0) && (p in files0 ==> fs.files[p] == files0[p])
    {
      BatchWrittenUnderRoot(files0, traces, ppkFiles, read, prims, fs.disk, dirs0, outputRoot, p);
    }
    forall d | d in fs.dirs && d !in dirs0 ensures d.root == outputRoot {
      if d.root != outputRoot {
        BatchWrittenUnderRoot(files0, traces, ppkFiles, read, prims, fs.disk, dirs0, outputRoot, Path(d, ""));
      }
    }
    var totalProcessed, totalExtracted, failedFiles := Tally(results);
    FailedAtMostFiles(results);
    ExtractedAtMostProcessed(results);
    report := Finished(|ppkFiles|, failedFiles, totalProcessed, totalExtracted);
  }
}
