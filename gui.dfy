/**
 * The desktop program's extraction core: the cooperative stop flag, `extract_single_frame`
 * with its four stop checkpoints, and the serial branch of `ExtractWorker.run`.
 */
module Gui {
  import opened Base
  import opened Signature
  import opened Classifier
  import opened Naming
  import opened Files
  import opened Extraction
  import opened Scanner

  /** `ExtractWorker._stop`, as read through the `stop_flag` callable. */
  class StopFlag {
    var raised: bool

    constructor ()
      ensures !raised
    {
      raised := false;
    }

    /** `ExtractWorker.stop`: sets the flag; it is never cleared during a run. */
    method Raise()
      modifies this
      ensures raised
    {
      raised := true;
    }

    /**
     * One read of the flag. The interface thread may call `stop()` at any moment between
     * two reads, so a read may find the flag newly raised; once raised it stays raised.
     */
    method Poll() returns (halt: bool)
      modifies this
      ensures old(raised) ==> raised
      ensures halt == raised
    {
      if !raised {
        var landed: bool :| true;
        raised := landed;
      }
      halt := raised;
    }
  }

  /** The desktop program files frames with its own category map. */
  function GuiSettings(outputRoot: string, enableMd5: bool, enableTypeDetect: bool): Settings {
    Settings(outputRoot, GUI_CATEGORY_MAP, enableMd5, enableTypeDetect)
  }

  /**
   * `extract_single_frame`: poll, poll, decompress, poll, dedup check, classify, create the
   * category folder, poll, write, then admit the hash. Only a saved frame admits its hash.
   * A stop seen, a decode error, a duplicate or a failed mkdir leaves the files as they
   * were; a write that raises may leave its file emptied or partly written. The folder is
   * created before the last poll, so a stop seen there leaves the new folder behind.
   */
  method ExtractSingleFrame<H(==)>(data: Bytes, frameStart: nat, outputRoot: string, frameIdx: nat,
                                   hashes: DedupIndex<H>, stop: StopFlag,
                                   enableMd5: bool, enableTypeDetect: bool,
                                   prims: Primitives<H>, fs: FileSystem)
    returns (r: FrameOutcome<H>)
    modifies hashes, stop, fs
    ensures FrameFits(r, GuiSettings(outputRoot, enableMd5, enableTypeDetect), prims, fs.disk, data, frameStart, frameIdx,
                      old(hashes.seen), old(fs.dirs))
    ensures old(stop.raised) ==> r == Interrupted(BeforeStart)
    ensures r.Interrupted? <==> stop.raised
    ensures r.Extracted? ==> fs.files == old(fs.files)[r.info.path := prims.decompress(Suffix(data, frameStart)).value]
    ensures r.WriteFailed? && r.left.Some? ==> fs.files == old(fs.files)[r.path := r.left.value]
    ensures !r.Writes() ==> fs.files == old(fs.files)
    ensures fs.dirs == old(fs.dirs) + FrameDirs(r, GuiSettings(outputRoot, enableMd5, enableTypeDetect), prims, data, frameStart, frameIdx)
    ensures hashes.seen == (if r.Extracted? && enableMd5 then old(hashes.seen) + {r.hash} else old(hashes.seen))
  {
    var halt := stop.Poll();
    if halt {
      return Interrupted(BeforeStart);
    }
    halt := stop.Poll();
    if halt {
      return Interrupted(BeforeDecompress);
    }
    var decompressed := prims.decompress(Suffix(data, frameStart));
    if decompressed.None? {
      return DecodeFailed;
    }
    var payload := decompressed.value;
    halt := stop.Poll();
    if halt {
      return Interrupted(AfterDecompress);
    }
    var fileHash := prims.md5(payload);
    if enableMd5 && fileHash in hashes.seen {
      return Duplicate(fileHash);
    }
    var ext := if enableTypeDetect then DetectFileExtension(payload) else "";
    var category := CategoryOf(GUI_CATEGORY_MAP, ext);
    var categoryFolder := Dir(outputRoot, category);
    var err := fs.MakeDirs(categoryFolder);
    if err.Some? {
      return DirFailed(err.value);
    }
    var outputFilename := FrameFileName(frameIdx, ext);
    var outputPath := Path(categoryFolder, outputFilename);
    assert outputPath == FrameInfo(GuiSettings(outputRoot, enableMd5, enableTypeDetect), frameIdx, payload).path;
    halt := stop.Poll();
    if halt {
      return Interrupted(BeforeWrite);
    }
    var left;
    err, left := fs.WriteFile(outputPath, payload);
    if err.Some? {
      return WriteFailed(err.value, outputPath, left);
    }
    if enableMd5 {
      hashes.Add(fileHash);
    }
    r := Extracted(FileInfo(outputFilename, ext, category, |payload|, outputPath), fileHash);
  }

  /** The log lines of a run, as outcomes rather than text. */
  datatype LogEntry<H> =
    | Started(size: nat)
    | StoppedAfterScan
    | FramesFound(total: nat)
    | SerialMode
    | FrameLog(outcome: FrameOutcome<H>)
    | Stopped
    | Completed(count: nat)
    | InputMissing

  /** The worker's signals: log, progress, file, finished and error. */
  datatype Event<H> =
    | Log(entry: LogEntry<H>)
    | Progress(done: nat, total: nat)
    | FileSaved(info: FileInfo)
    | Finished(count: nat)
    | Error(entry: LogEntry<H>)

  /** The signals for the n-th processed frame: a log line, the file if saved, one progress step. */
  function FrameStep<H>(r: FrameOutcome<H>, n: nat, total: nat): seq<Event<H>> {
    [Log(FrameLog(r))] + (if r.Extracted? then [FileSaved(r.info)] else []) + [Progress(n, total)]
  }

  /** The signals emitted for the processed frames, in order. */
  function FrameEvents<H>(trace: seq<FrameOutcome<H>>, total: nat): seq<Event<H>> {
    if trace == [] then []
    else
      var n := |trace|;
      FrameEvents(trace[..n - 1], total) + FrameStep(trace[n - 1], n, total)
  }

  /** Signals emitted after `prefix` grow by one frame's step. */
  lemma FrameEventsSnoc<H>(prefix: seq<Event<H>>, trace: seq<FrameOutcome<H>>, r: FrameOutcome<H>, total: nat)
    ensures FrameEvents(trace + [r], total) == FrameEvents(trace, total) + FrameStep(r, |trace| + 1, total)
    ensures prefix + FrameEvents(trace, total) + FrameStep(r, |trace| + 1, total) == prefix + FrameEvents(trace + [r], total)
  {
    assert (trace + [r])[..|trace|] == trace;
  }

  /** The `done` values of the progress signals, in emission order. */
  function ProgressDone<H>(events: seq<Event<H>>): seq<nat> {
    if events == [] then []
    else ProgressDone(events[..|events| - 1])
         + (if events[|events| - 1].Progress? then [events[|events| - 1].done] else [])
  }

  lemma {:induction false} ProgressDoneAppend<H>(a: seq<Event<H>>, b: seq<Event<H>>)
    ensures ProgressDone(a + b) == ProgressDone(a) + ProgressDone(b)
    decreases |b|
  {
    if b == [] {
      assert a + b == a;
    } else {
      assert (a + b)[..|a + b| - 1] == a + b[..|b| - 1];
      ProgressDoneAppend(a, b[..|b| - 1]);
    }
  }

  /** Each processed frame reports exactly one progress step, carrying its own number. */
  lemma StepProgress<H>(r: FrameOutcome<H>, n: nat, total: nat)
    ensures ProgressDone(FrameStep(r, n, total)) == [n]
  {
    var step := FrameStep(r, n, total);
    var head := step[..|step| - 1];
    assert ProgressDone<H>([Log(FrameLog(r))]) == [];
    if r.Extracted? {
      assert head == [Log(FrameLog(r)), FileSaved(r.info)];
      assert head[..1] == [Log(FrameLog(r))];
    } else {
      assert head == [Log(FrameLog(r))];
    }
  }

  /** Frame by frame, progress goes 1, 2, ..., one step per processed frame. */
  lemma {:induction false} FrameProgressCountsUp<H>(trace: seq<FrameOutcome<H>>, total: nat)
    ensures ProgressDone(FrameEvents(trace, total)) == seq(|trace|, k => k + 1)
  {
    if trace != [] {
      var n := |trace|;
      FrameProgressCountsUp(trace[..n - 1], total);
      ProgressDoneAppend(FrameEvents(trace[..n - 1], total), FrameStep(trace[n - 1], n, total));
      StepProgress(trace[n - 1], n, total);
      assert seq(n, k => k + 1) == seq(n - 1, k => k + 1) + [n];
    }
  }

  /** The run's state after the frames of `trace`, together with the signals emitted after `prefix`. */
  ghost predicate Summaries<H>(s: Settings, prims: Primitives<H>, disk: Disk, data: Bytes, positions: seq<nat>,
                               trace: seq<FrameOutcome<H>>, files0: map<Path, Bytes>, dirs0: set<Dir>, prefix: seq<Event<H>>,
                               files: map<Path, Bytes>, dirs: set<Dir>, seen: set<H>, count: nat, events: seq<Event<H>>)
  {
    && RunState(s, prims, disk, data, positions, trace, files0, dirs0, files, dirs, seen, count)
    && events == prefix + FrameEvents(trace, |positions|)
  }

  /** One more frame, with the effects `extract_single_frame` and the loop body have on each summary. */
  lemma FrameAdvance<H>(s: Settings, prims: Primitives<H>, disk: Disk, data: Bytes, positions: seq<nat>,
                        trace: seq<FrameOutcome<H>>, r: FrameOutcome<H>, files0: map<Path, Bytes>, dirs0: set<Dir>,
                        prefix: seq<Event<H>>,
                        files: map<Path, Bytes>, dirs: set<Dir>, seen: set<H>, count: nat, events: seq<Event<H>>,
                        files': map<Path, Bytes>, dirs': set<Dir>, seen': set<H>, count': nat, events': seq<Event<H>>)
    requires |trace| < |positions|
    requires Summaries(s, prims, disk, data, positions, trace, files0, dirs0, prefix, files, dirs, seen, count, events)
    requires FrameFits(r, s, prims, disk, data, positions[|trace|], |trace|, seen, dirs)
    requires files' == AfterFrame(files, r, prims.decompress(Suffix(data, positions[|trace|])))
    requires dirs' == dirs + FrameDirs(r, s, prims, data, positions[|trace|], |trace|)
    requires seen' == (if r.Extracted? && s.enableMd5 then seen + {r.hash} else seen)
    requires count' == count + (if r.Extracted? then 1 else 0)
    requires events' == events + FrameStep(r, |trace| + 1, |positions|)
    ensures Summaries(s, prims, disk, data, positions, trace + [r], files0, dirs0, prefix, files', dirs', seen', count', events')
  {
    FrameEventsSnoc(prefix, trace, r, |positions|);
    RunStateAdvance(s, prims, disk, data, positions, trace, r, files0, dirs0, files, dirs, seen, count,
                    files', dirs', seen', count');
  }

  /** `ExtractWorker`, serial mode (`fast_mode` false). */
  class ExtractWorker<H(==)> {
    const outputRoot: string
    const enableMd5: bool
    const enableTypeDetect: bool
    const prims: Primitives<H>
    const stopFlag: StopFlag
    const fs: FileSystem
    /** Everything emitted so far, in order. */
    var events: seq<Event<H>>

    constructor (outputRoot: string, enableMd5: bool, enableTypeDetect: bool, prims: Primitives<H>, fs: FileSystem)
      ensures this.outputRoot == outputRoot && this.enableMd5 == enableMd5 && this.enableTypeDetect == enableTypeDetect
      ensures this.prims == prims && this.fs == fs
      ensures fresh(stopFlag) && !stopFlag.raised && events == []
    {
      this.outputRoot := outputRoot;
      this.enableMd5 := enableMd5;
      this.enableTypeDetect := enableTypeDetect;
      this.prims := prims;
      this.fs := fs;
      this.stopFlag := new StopFlag();
      this.events := [];
    }

    /** `stop`: requests cancellation; the run notices at its next poll. */
    method Stop()
      modifies stopFlag
      ensures stopFlag.raised
    {
      stopFlag.Raise();
    }

    ghost function RunSettings(): Settings {
      GuiSettings(outputRoot, enableMd5, enableTypeDetect)
    }

    /**
     * One turn of the serial loop once the flag was found down: extract the frame, count it
     * if saved, then log it, report the file and advance progress.
     */
    method ProcessFrame(data: Bytes, framePositions: seq<nat>, i: nat, hashes: DedupIndex<H>, extractedCount: nat,
                        ghost trace: seq<FrameOutcome<H>>, ghost files0: map<Path, Bytes>, ghost dirs0: set<Dir>,
                        ghost prefix: seq<Event<H>>)
      returns (r: FrameOutcome<H>, count: nat)
      requires i == |trace| < |framePositions|
      requires Summaries(RunSettings(), prims, fs.disk, data, framePositions, trace, files0, dirs0, prefix,
                         fs.files, fs.dirs, hashes.seen, extractedCount, events)
      modifies this, hashes, stopFlag, fs
      ensures Summaries(RunSettings(), prims, fs.disk, data, framePositions, trace + [r], files0, dirs0, prefix,
                        fs.files, fs.dirs, hashes.seen, count, events)
      ensures old(stopFlag.raised) ==> stopFlag.raised
      ensures r.Interrupted? <==> stopFlag.raised
    {
      ghost var before := (fs.files, fs.dirs, hashes.seen, events);
      r := ExtractSingleFrame(data, framePositions[i], outputRoot, i, hashes, stopFlag,
                              enableMd5, enableTypeDetect, prims, fs);
      count := if r.Extracted? then extractedCount + 1 else extractedCount;
      events := events + FrameStep(r, i + 1, |framePositions|);
      FrameAdvance(RunSettings(), prims, fs.disk, data, framePositions, trace, r, files0, dirs0, prefix,
                   before.0, before.1, before.2, extractedCount, before.3, fs.files, fs.dirs, hashes.seen, count, events);
    }

    /**
     * The serial loop of `run` (lines for `fast_mode` false): for each frame in order, poll
     * the flag and leave at the first stop seen, otherwise extract the frame, log it, report
     * the file if saved and advance progress by one.
     */
    method ExtractFrames(data: Bytes, framePositions: seq<nat>) returns (extractedCount: nat, ghost trace: seq<FrameOutcome<H>>)
      modifies this, stopFlag, fs
      ensures |trace| <= |framePositions|
      ensures extractedCount == CountExtracted(trace)
      ensures events == old(events) + FrameEvents(trace, |framePositions|)
      ensures TraceFits(trace, RunSettings(), prims, fs.disk, old(fs.dirs), data, framePositions)
      ensures fs.files == Written(old(fs.files), trace, prims, data, framePositions)
      ensures fs.dirs == old(fs.dirs) + DirsMade(trace, RunSettings(), prims, data, framePositions)
      ensures old(stopFlag.raised) ==> trace == []
      ensures |trace| < |framePositions| ==> stopFlag.raised
      ensures forall k :: 0 <= k < |trace| - 1 ==> !trace[k].Interrupted?
      ensures |trace| > 0 && trace[|trace| - 1].Interrupted? ==> stopFlag.raised
      ensures enableMd5 ==> forall i, j :: 0 <= i < j < |trace| && trace[i].Extracted? && trace[j].Extracted? ==>
                                           trace[i].hash != trace[j].hash
    {
      var hashes := new DedupIndex<H>();
      extractedCount := 0;
      trace := [];
      ghost var prefix := events;
      ghost var files0, dirs0 := fs.files, fs.dirs;
      var i := 0;
      while i < |framePositions|
        invariant i <= |framePositions| && |trace| == i
        invariant fresh(hashes)
        invariant Summaries(RunSettings(), prims, fs.disk, data, framePositions, trace, files0, dirs0, prefix,
                            fs.files, fs.dirs, hashes.seen, extractedCount, events)
        invariant old(stopFlag.raised) ==> stopFlag.raised && trace == []
        invariant forall k :: 0 <= k < |trace| - 1 ==> !trace[k].Interrupted?
        invariant |trace| > 0 && trace[|trace| - 1].Interrupted? ==> stopFlag.raised
      {
        var halt := stopFlag.Poll();
        if halt {
          break;
        }
        assert i > 0 ==> !trace[i - 1].Interrupted?;
        var r;
        r, extractedCount := ProcessFrame(data, framePositions, i, hashes, extractedCount, trace, files0, dirs0, prefix);
        assert forall k :: 0 <= k < |trace| ==> (trace + [r])[k] == trace[k];
        assert (trace + [r])[|trace|] == r;
        trace := trace + [r];
        i := i + 1;
      }
      if enableMd5 {
        AdmittedHashesDistinct(trace, RunSettings(), prims, fs.disk, dirs0, data, framePositions);
      }
    }

    /**
     * The part of `run` after the scan: poll once, report the frame count, then run the
     * serial loop, poll again and report how it ended.
     */
    method ExtractScanned(data: Bytes, framePositions: seq<nat>) returns (ghost trace: seq<FrameOutcome<H>>, ghost scanStopped: bool)
      modifies this, stopFlag, fs
      ensures |trace| <= |framePositions|
      ensures TraceFits(trace, RunSettings(), prims, fs.disk, old(fs.dirs), data, framePositions)
      ensures scanStopped ==> events == old(events) + [Log(StoppedAfterScan), Finished(0)]
      ensures !scanStopped && |framePositions| == 0 ==> events == old(events) + [Log(FramesFound(0)), Finished(0)]
      ensures !scanStopped && |framePositions| > 0 ==>
        var count := CountExtracted(trace);
        events == old(events) + [Log(FramesFound(|framePositions|))] + [Progress(0, |framePositions|), Log(SerialMode)]
                  + FrameEvents(trace, |framePositions|) + [Log(if stopFlag.raised then Stopped else Completed(count)), Finished(count)]
      ensures old(stopFlag.raised) ==> scanStopped
      ensures scanStopped || |framePositions| == 0 ==> trace == []
      ensures |trace| < |framePositions| ==> stopFlag.raised
      ensures forall k :: 0 <= k < |trace| - 1 ==> !trace[k].Interrupted?
      ensures |trace| > 0 && trace[|trace| - 1].Interrupted? ==> stopFlag.raised
      ensures fs.files == Written(old(fs.files), trace, prims, data, framePositions)
      ensures fs.dirs == old(fs.dirs) + DirsMade(trace, RunSettings(), prims, data, framePositions)
      ensures enableMd5 ==> forall i, j :: 0 <= i < j < |trace| && trace[i].Extracted? && trace[j].Extracted? ==>
                                           trace[i].hash != trace[j].hash
    {
      trace, scanStopped := [], false;
      var totalFrames := |framePositions|;
      var halt := stopFlag.Poll();
      if halt {
        scanStopped := true;
        events := events + [Log(StoppedAfterScan), Finished(0)];
        return;
      }
      events := events + [Log(FramesFound(totalFrames))];
      if totalFrames == 0 {
        events := events + [Finished(0)];
        return;
      }
      events := events + [Progress(0, totalFrames), Log(SerialMode)];
      var extractedCount;
      extractedCount, trace := ExtractFrames(data, framePositions);
      halt := stopFlag.Poll();
      events := events + [Log(if halt then Stopped else Completed(extractedCount)), Finished(extractedCount)];
    }

    /**
     * `run` with the input file's contents (None when the file does not exist). Frames are
     * taken in ascending offset order; the loop polls the flag before each frame and leaves
     * at the first stop it sees.
     */
    method Run(input: Option<Bytes>) returns (ghost trace: seq<FrameOutcome<H>>, ghost scanStopped: bool)
      modifies this, stopFlag, fs
      ensures input.None? ==>
        events == old(events) + [Error(InputMissing)] && trace == [] && fs.files == old(fs.files) && fs.dirs == old(fs.dirs)
      ensures input.Some? ==>
        var data := input.value;
        var positions := AllMagicPositions(data);
        && |trace| <= |positions|
        && TraceFits(trace, RunSettings(), prims, fs.disk, old(fs.dirs), data, positions)
        && (scanStopped ==> events == old(events) + [Log(Started(|data|))] + [Log(StoppedAfterScan), Finished(0)])
        && (!scanStopped && |positions| == 0 ==>
              events == old(events) + [Log(Started(|data|))] + [Log(FramesFound(0)), Finished(0)])
        && (!scanStopped && |positions| > 0 ==>
              var count := CountExtracted(trace);
              events == old(events) + [Log(Started(|data|))] + [Log(FramesFound(|positions|))]
                        + [Progress(0, |positions|), Log(SerialMode)] + FrameEvents(trace, |positions|)
                        + [Log(if stopFlag.raised then Stopped else Completed(count)), Finished(count)])
        && (old(stopFlag.raised) ==> scanStopped)
        && (scanStopped || |positions| == 0 ==> trace == [])
        && (|trace| < |positions| ==> stopFlag.raised)
        && (forall k :: 0 <= k < |trace| - 1 ==> !trace[k].Interrupted?)
        && (|trace| > 0 && trace[|trace| - 1].Interrupted? ==> stopFlag.raised)
        && fs.files == Written(old(fs.files), trace, prims, data, positions)
        && fs.dirs == old(fs.dirs) + DirsMade(trace, RunSettings(), prims, data, positions)
        && (enableMd5 ==> forall i, j :: 0 <= i < j < |trace| && trace[i].Extracted? && trace[j].Extracted? ==>
                                          trace[i].hash != trace[j].hash)
    {
      if input.None? {
        trace, scanStopped := [], false;
        events := events + [Error(InputMissing)];
        return;
      }
      var data := input.value;
      events := events + [Log(Started(|data|))];
      var framePositions := ScanZstdFrames(data);
      trace, scanStopped := ExtractScanned(data, framePositions);
    }
  }
}
