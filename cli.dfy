/**
 * The command-line NPK extractor: its `extract_single_frame`, which always deduplicates and
 * always classifies, and the serial branch of `extract_zstd_container`.
 */
module Cli {
  import opened Base
  import opened Signature
  import opened Classifier
  import opened Naming
  import opened Files
  import opened Extraction
  import opened Scanner

  /** The command-line extractor files frames with the shared map, dedup and detection always on. */
  function CliSettings(outputFolder: string): Settings {
    Settings(outputFolder, CATEGORY_MAP, true, true)
  }

  /**
   * `extract_single_frame`: decompress, dedup by fingerprint, classify, create the category
   * folder, write, then admit the hash. Only a saved frame admits its hash. A decode error,
   * a duplicate or a failed mkdir leaves the files as they were; a write that raises may
   * leave its file emptied or partly written. Nothing here can be interrupted.
   */
  method ExtractSingleFrame<H(==)>(data: Bytes, frameStart: nat, outputRoot: string, frameIdx: nat,
                                   hashes: DedupIndex<H>, prims: Primitives<H>, fs: FileSystem)
    returns (r: FrameOutcome<H>)
    modifies hashes, fs
    ensures FrameFits(r, CliSettings(outputRoot), prims, fs.disk, data, frameStart, frameIdx, old(hashes.seen), old(fs.dirs))
    ensures !r.Interrupted?
    ensures r.Extracted? ==> fs.files == old(fs.files)[r.info.path := prims.decompress(Suffix(data, frameStart)).value]
    ensures r.WriteFailed? && r.left.Some? ==> fs.files == old(fs.files)[r.path := r.left.value]
    ensures !r.Writes() ==> fs.files == old(fs.files)
    ensures fs.dirs == old(fs.dirs) + FrameDirs(r, CliSettings(outputRoot), prims, data, frameStart, frameIdx)
    ensures hashes.seen == (if r.Extracted? then old(hashes.seen) + {r.hash} else old(hashes.seen))
  {
    var decompressed := prims.decompress(Suffix(data, frameStart));
    if decompressed.None? {
      return DecodeFailed;
    }
    var payload := decompressed.value;
    var fileHash := prims.md5(payload);
    if fileHash in hashes.seen {
      return Duplicate(fileHash);
    }
    var ext := DetectFileExtension(payload);
    var category := CategoryOf(CATEGORY_MAP, ext);
    var categoryFolder := Dir(outputRoot, category);
    var err := fs.MakeDirs(categoryFolder);
    if err.Some? {
      return DirFailed(err.value);
    }
    var outputFilename := FrameFileName(frameIdx, ext);
    var outputPath := Path(categoryFolder, outputFilename);
    var left;
    err, left := fs.WriteFile(outputPath, payload);
    if err.Some? {
      return WriteFailed(err.value, outputPath, left);
    }
    hashes.Add(fileHash);
    r := Extracted(FileInfo(outputFilename, ext, category, |payload|, outputPath), fileHash);
  }

  /**
   * `extract_zstd_container` on the serial branch: scan for every magic, then hand each frame
   * to `extract_single_frame` in ascending order with one shared hash set, counting the saves.
   * Every frame is visited, so the trace covers all positions.
   */
  method ExtractZstdContainer<H(==)>(data: Bytes, outputFolder: string, prims: Primitives<H>, fs: FileSystem)
    returns (extractedCount: nat, ghost trace: seq<FrameOutcome<H>>)
    modifies fs
    ensures var positions := AllMagicPositions(data);
      && |trace| == |positions|
      && extractedCount == CountExtracted(trace)
      && TraceFits(trace, CliSettings(outputFolder), prims, fs.disk, old(fs.dirs), data, positions)
      && fs.files == Written(old(fs.files), trace, prims, data, positions)
      && fs.dirs == old(fs.dirs) + DirsMade(trace, CliSettings(outputFolder), prims, data, positions)
      && (forall k :: 0 <= k < |trace| ==> !trace[k].Interrupted?)
      && (forall i, j :: 0 <= i < j < |trace| && trace[i].Extracted? && trace[j].Extracted? ==>
            trace[i].hash != trace[j].hash)
  {
    var framePositions := ScanZstdFrames(data);
    var hashes := new DedupIndex<H>();
    extractedCount := 0;
    trace := [];
    ghost var s := CliSettings(outputFolder);
    ghost var files0, dirs0 := fs.files, fs.dirs;
    var i := 0;
    while i < |framePositions|
      invariant i <= |framePositions| && |trace| == i
      invariant fresh(hashes)
      invariant RunState(s, prims, fs.disk, data, framePositions, trace, files0, dirs0, fs.files, fs.dirs, hashes.seen, extractedCount)
      invariant forall k :: 0 <= k < |trace| ==> !trace[k].Interrupted?
    {
      ghost var before := (fs.files, fs.dirs, hashes.seen);
      var r := ExtractSingleFrame(data, framePositions[i], outputFolder, i, hashes, prims, fs);
      if r.Extracted? {
        extractedCount := extractedCount + 1;
      }
      RunStateAdvance(s, prims, fs.disk, data, framePositions, trace, r, files0, dirs0,
                      before.0, before.1, before.2, extractedCount - (if r.Extracted? then 1 else 0),
                      fs.files, fs.dirs, hashes.seen, extractedCount);
      trace := trace + [r];
      i := i + 1;
    }
    AdmittedHashesDistinct(trace, s, prims, fs.disk, dirs0, data, framePositions);
  }
}
