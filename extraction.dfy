/**
 * What the per-frame extraction step of the desktop program and of the command-line
 * NPK extractor have in common: the foreign primitives, the hash set, the outcome of
 * one frame, where its file goes, and what a run of frames leaves behind.
 */
module Extraction {
  import opened Base
  import opened Files
  import opened Naming
  import opened Classifier

  /**
   * The two foreign primitives: Zstandard decompression (None when it raises
   * `zstd.ZstdError`) and the MD5 fingerprint, both left uninterpreted.
   */
  datatype Primitives<H> = Primitives(decompress: Bytes -> Option<Bytes>, md5: Bytes -> H)

  /** The `extracted_hashes` set, shared by reference between a run and its frames. */
  class DedupIndex<H(==)> {
    var seen: set<H>

    constructor ()
      ensures seen == {}
    {
      seen := {};
    }

    method Add(h: H)
      modifies this
      ensures seen == old(seen) + {h}
    {
      seen := seen + {h};
    }
  }

  /** The points at which a frame polls the stop flag. */
  datatype Checkpoint = BeforeStart | BeforeDecompress | AfterDecompress | BeforeWrite

  /** The `info` dictionary reported for a saved frame. */
  datatype FileInfo = FileInfo(name: string, ext: string, category: string, size: nat, path: Path)

  /** How one frame ended; the `ok` flag is `Extracted?` and `info` is present exactly then. */
  datatype FrameOutcome<H> =
    | Interrupted(at: Checkpoint)
    | DecodeFailed
    | Duplicate(hash: H)
    /** Creating the category folder raised. */
    | DirFailed(error: string)
    /** Writing the file raised; `left` is what the file holds now if it was opened. */
    | WriteFailed(error: string, path: Path, left: Option<Bytes>)
    | Extracted(info: FileInfo, hash: H)
  {
    /** The frame's file was written, wholly or in part. */
    predicate Writes() {
      Extracted? || (WriteFailed? && left.Some?)
    }

    /** The file a writing frame wrote. */
    function Target(): Path
      requires Writes()
    {
      if Extracted? then info.path else path
    }

    /** The frame got as far as creating its category folder. */
    predicate PastMkdir() {
      (Interrupted? && at == BeforeWrite) || WriteFailed? || Extracted?
    }
  }

  /** The options that shape a frame's output. */
  datatype Settings = Settings(outputRoot: string, categoryMap: map<string, string>,
                               enableMd5: bool, enableTypeDetect: bool)

  /** Where and under which name a decompressed frame is stored. */
  function FrameInfo(s: Settings, frameIdx: nat, payload: Bytes): FileInfo {
    var ext := if s.enableTypeDetect then DetectFileExtension(payload) else "";
    var category := CategoryOf(s.categoryMap, ext);
    var name := FrameFileName(frameIdx, ext);
    FileInfo(name, ext, category, |payload|, Path(Dir(s.outputRoot, category), name))
  }

  /**
   * A saved frame lands at output_root/category/extracted_frame_{idx+1}{ext}, its size is
   * the payload's length, and without type detection it is labelled "" and filed as unknown.
   */
  lemma FrameInfoPlacement(s: Settings, frameIdx: nat, payload: Bytes)
    requires s.categoryMap == GUI_CATEGORY_MAP || s.categoryMap == CATEGORY_MAP
    ensures var info := FrameInfo(s, frameIdx, payload);
      && info.size == |payload|
      && info.path == Path(Dir(s.outputRoot, info.category), info.name)
      && info.name == FrameFileName(frameIdx, info.ext)
      && info.ext in s.categoryMap && info.category == s.categoryMap[info.ext]
      && (!s.enableTypeDetect ==> info.ext == "" && info.category == UNKNOWN_CATEGORY)
  {
    CategoryLookupTotal(payload);
  }

  /** Different frames never share an output path, whatever their payloads. */
  lemma FrameInfoPathsDistinct(s: Settings, i: nat, p1: Bytes, j: nat, p2: Bytes)
    requires i != j
    ensures FrameInfo(s, i, p1).path != FrameInfo(s, j, p2).path
  {
    var a, b := FrameInfo(s, i, p1), FrameInfo(s, j, p2);
    if a.path == b.path {
      FrameFileNameInjective(i, a.ext, j, b.ext);
    }
  }

  /**
   * What one call may return, given the decompressed payload, the hashes seen before it,
   * the disk and the folders present before it. A new frame that is not interrupted is
   * saved unless creating its folder or writing its file raises, as the disk decides.
   */
  ghost predicate FrameFits<H>(r: FrameOutcome<H>, s: Settings, prims: Primitives<H>, disk: Disk,
                               data: Bytes, start: nat, frameIdx: nat, seenBefore: set<H>, dirsBefore: set<Dir>)
  {
    var payload := prims.decompress(Suffix(data, start));
    var isNew := payload.Some? && !(s.enableMd5 && prims.md5(payload.value) in seenBefore);
    match r
    case Interrupted(at) =>
      && (at == AfterDecompress ==> payload.Some?)
      && (at == BeforeWrite ==> isNew && disk.MkdirError(dirsBefore, FrameInfo(s, frameIdx, payload.value).path.dir) == None)
    case DecodeFailed => payload.None?
    case Duplicate(h) => s.enableMd5 && payload.Some? && h == prims.md5(payload.value) && h in seenBefore
    case DirFailed(e) =>
      isNew && disk.MkdirError(dirsBefore, FrameInfo(s, frameIdx, payload.value).path.dir) == Some(e)
    case WriteFailed(e, path, left) =>
      && isNew && path == FrameInfo(s, frameIdx, payload.value).path
      && disk.MkdirError(dirsBefore, path.dir) == None
      && disk.WriteError(path) == Some(e) && left == Leftover(disk.writeFault(path), payload.value)
    case Extracted(info, h) =>
      && isNew && h == prims.md5(payload.value) && info == FrameInfo(s, frameIdx, payload.value)
      && disk.MkdirError(dirsBefore, info.path.dir) == None && disk.WriteError(info.path) == None
  }

  /** The file map after one frame's write, given its decompressed payload. */
  function AfterFrame<H>(files: map<Path, Bytes>, r: FrameOutcome<H>, payload: Option<Bytes>): map<Path, Bytes> {
    match (r, payload)
    case (Extracted(info, _), Some(bytes)) => files[info.path := bytes]
    case (WriteFailed(_, path, Some(left)), _) => files[path := left]
    case _ => files
  }

  /** The category folder a frame created, when it got that far. */
  ghost function FrameDirs<H>(r: FrameOutcome<H>, s: Settings, prims: Primitives<H>,
                              data: Bytes, start: nat, frameIdx: nat): set<Dir>
  {
    var payload := prims.decompress(Suffix(data, start));
    if r.PastMkdir() && payload.Some? then {FrameInfo(s, frameIdx, payload.value).path.dir} else {}
  }

  /** `extracted_count`: the frames that returned ok. */
  function CountExtracted<H>(trace: seq<FrameOutcome<H>>): (n: nat)
    ensures n <= |trace|
    ensures n == |trace| ==> forall k :: 0 <= k < |trace| ==> trace[k].Extracted?
  {
    if trace == [] then 0
    else CountExtracted(trace[..|trace| - 1]) + (if trace[|trace| - 1].Extracted? then 1 else 0)
  }

  /** The fingerprints admitted by the saved frames of a trace. */
  ghost function Admitted<H>(trace: seq<FrameOutcome<H>>): set<H> {
    set k | 0 <= k < |trace| && trace[k].Extracted? :: trace[k].hash
  }

  /** The paths written, wholly or in part, by the frames of a trace. */
  ghost function WrittenPaths<H>(trace: seq<FrameOutcome<H>>): set<Path> {
    set k | 0 <= k < |trace| && trace[k].Writes() :: trace[k].Target()
  }

  /** Frame i of the trace was produced from the frame at positions[i], after frames 0..i-1. */
  ghost predicate TraceFits<H>(trace: seq<FrameOutcome<H>>, s: Settings, prims: Primitives<H>, disk: Disk, dirs0: set<Dir>,
                               data: Bytes, positions: seq<nat>)
    decreases |trace|
  {
    |trace| <= |positions| &&
    (trace != [] ==>
       var n := |trace| - 1;
       TraceFits(trace[..n], s, prims, disk, dirs0, data, positions) &&
       FrameFits(trace[n], s, prims, disk, data, positions[n], n, Admitted(trace[..n]),
                 dirs0 + DirsMade(trace[..n], s, prims, data, positions)))
  }

  lemma {:induction false} TraceFitsAt<H>(trace: seq<FrameOutcome<H>>, s: Settings, prims: Primitives<H>, disk: Disk, dirs0: set<Dir>,
                                          data: Bytes, positions: seq<nat>, i: nat)
    requires TraceFits(trace, s, prims, disk, dirs0, data, positions) && i < |trace|
    ensures FrameFits(trace[i], s, prims, disk, data, positions[i], i, Admitted(trace[..i]),
                      dirs0 + DirsMade(trace[..i], s, prims, data, positions))
    decreases |trace|
  {
    var n := |trace| - 1;
    if i < n {
      TraceFitsAt(trace[..n], s, prims, disk, dirs0, data, positions, i);
      assert trace[..n][..i] == trace[..i];
    }
  }

  /** A frame that wrote decoded, and wrote at the path its number and payload give it. */
  lemma TargetOfFrame<H>(trace: seq<FrameOutcome<H>>, s: Settings, prims: Primitives<H>, disk: Disk, dirs0: set<Dir>,
                         data: Bytes, positions: seq<nat>, k: nat)
    requires TraceFits(trace, s, prims, disk, dirs0, data, positions) && k < |trace| && trace[k].Writes()
    ensures prims.decompress(Suffix(data, positions[k])).Some?
    ensures trace[k].Target() == FrameInfo(s, k, prims.decompress(Suffix(data, positions[k])).value).path
    ensures trace[k].WriteFailed? ==> trace[k].left.value <= prims.decompress(Suffix(data, positions[k])).value
  {
    TraceFitsAt(trace, s, prims, disk, dirs0, data, positions, k);
  }

  /**
   * On a disk where nothing raises, no frame fails to create its folder or to write, and a
   * frame that was not interrupted is saved exactly when it decompressed and, with dedup
   * on, its fingerprint was not admitted by an earlier frame.
   */
  lemma HealthyFramesSaved<H>(trace: seq<FrameOutcome<H>>, s: Settings, prims: Primitives<H>, disk: Disk,
                              dirs0: set<Dir>, data: Bytes, positions: seq<nat>)
    requires TraceFits(trace, s, prims, disk, dirs0, data, positions) && disk.Healthy()
    ensures forall k :: 0 <= k < |trace| ==> !trace[k].DirFailed? && !trace[k].WriteFailed?
    ensures forall k :: 0 <= k < |trace| && !trace[k].Interrupted? ==>
              (trace[k].Extracted? <==>
                 && prims.decompress(Suffix(data, positions[k])).Some?
                 && !(s.enableMd5 && prims.md5(prims.decompress(Suffix(data, positions[k])).value) in Admitted(trace[..k])))
  {
    forall k | 0 <= k < |trace|
      ensures !trace[k].DirFailed? && !trace[k].WriteFailed?
      ensures !trace[k].Interrupted? ==>
                (trace[k].Extracted? <==>
                   && prims.decompress(Suffix(data, positions[k])).Some?
                   && !(s.enableMd5 && prims.md5(prims.decompress(Suffix(data, positions[k])).value) in Admitted(trace[..k])))
    {
      TraceFitsAt(trace, s, prims, disk, dirs0, data, positions, k);
    }
  }

  /** How many of the first n frames decompress. */
  ghost function DecodedCount<H>(prims: Primitives<H>, data: Bytes, positions: seq<nat>, n: nat): nat
    requires n <= |positions|
  {
    if n == 0 then 0
    else DecodedCount(prims, data, positions, n - 1) + (if prims.decompress(Suffix(data, positions[n - 1])).Some? then 1 else 0)
  }

  /**
   * Without dedup, on a disk where nothing raises, a run with no interruption saves one
   * file per frame that decompresses.
   */
  lemma {:induction false} HealthyCountsDecoded<H>(trace: seq<FrameOutcome<H>>, s: Settings, prims: Primitives<H>,
                                                   disk: Disk, dirs0: set<Dir>, data: Bytes, positions: seq<nat>)
    requires TraceFits(trace, s, prims, disk, dirs0, data, positions) && disk.Healthy() && !s.enableMd5
    requires forall k :: 0 <= k < |trace| ==> !trace[k].Interrupted?
    ensures CountExtracted(trace) == DecodedCount(prims, data, positions, |trace|)
    decreases |trace|
  {
    if trace != [] {
      var n := |trace| - 1;
      assert forall k :: 0 <= k < n ==> trace[..n][k] == trace[k];
      HealthyCountsDecoded(trace[..n], s, prims, disk, dirs0, data, positions);
      TraceFitsAt(trace, s, prims, disk, dirs0, data, positions, n);
    }
  }

  /** How the count of a trace grows by one frame. */
  lemma CountSnoc<H>(trace: seq<FrameOutcome<H>>, r: FrameOutcome<H>)
    ensures CountExtracted(trace + [r]) == CountExtracted(trace) + (if r.Extracted? then 1 else 0)
  {
    assert (trace + [r])[..|trace|] == trace;
  }

  /** How the admitted fingerprints of a trace grow by one frame. */
  lemma AdmittedSnoc<H>(trace: seq<FrameOutcome<H>>, r: FrameOutcome<H>)
    ensures Admitted(trace + [r]) == Admitted(trace) + (if r.Extracted? then {r.hash} else {})
  {
    var t := trace + [r];
    var n := |trace|;
    forall h | h in Admitted(t) ensures h in Admitted(trace) + (if r.Extracted? then {r.hash} else {}) {
      var k :| 0 <= k < |t| && t[k].Extracted? && t[k].hash == h;
      if k < n { assert trace[k] == t[k]; }
    }
    forall h | h in Admitted(trace) ensures h in Admitted(t) {
      var k :| 0 <= k < n && trace[k].Extracted? && trace[k].hash == h;
      assert t[k] == trace[k];
    }
    if r.Extracted? { assert t[n].hash in Admitted(t); }
  }

  /** How the written paths of a trace grow by one frame. */
  lemma WrittenPathsSnoc<H>(trace: seq<FrameOutcome<H>>, r: FrameOutcome<H>)
    ensures WrittenPaths(trace + [r]) == WrittenPaths(trace) + (if r.Writes() then {r.Target()} else {})
  {
    var t := trace + [r];
    var n := |trace|;
    forall p | p in WrittenPaths(t) ensures p in WrittenPaths(trace) + (if r.Writes() then {r.Target()} else {}) {
      var k :| 0 <= k < |t| && t[k].Writes() && t[k].Target() == p;
      if k < n { assert trace[k] == t[k]; }
    }
    forall p | p in WrittenPaths(trace) ensures p in WrittenPaths(t) {
      var k :| 0 <= k < n && trace[k].Writes() && trace[k].Target() == p;
      assert t[k] == trace[k];
    }
    if r.Writes() { assert t[n].Target() in WrittenPaths(t); }
  }

  /** A frame that fits after the trace extends it. */
  lemma TraceFitsSnoc<H>(trace: seq<FrameOutcome<H>>, r: FrameOutcome<H>, s: Settings, prims: Primitives<H>, disk: Disk, dirs0: set<Dir>,
                         data: Bytes, positions: seq<nat>)
    requires TraceFits(trace, s, prims, disk, dirs0, data, positions) && |trace| < |positions|
    requires FrameFits(r, s, prims, disk, data, positions[|trace|], |trace|, Admitted(trace),
                       dirs0 + DirsMade(trace, s, prims, data, positions))
    ensures TraceFits(trace + [r], s, prims, disk, dirs0, data, positions)
  {
    assert (trace + [r])[..|trace|] == trace;
  }

  /** With dedup on, no two saved frames of a serial run carry the same fingerprint. */
  lemma {:induction false} AdmittedHashesDistinct<H>(trace: seq<FrameOutcome<H>>, s: Settings, prims: Primitives<H>, disk: Disk, dirs0: set<Dir>,
                                                     data: Bytes, positions: seq<nat>)
    requires s.enableMd5 && TraceFits(trace, s, prims, disk, dirs0, data, positions)
    ensures forall i, j :: 0 <= i < j < |trace| && trace[i].Extracted? && trace[j].Extracted? ==>
              trace[i].hash != trace[j].hash
  {
    forall i, j | 0 <= i < j < |trace| && trace[i].Extracted? && trace[j].Extracted?
      ensures trace[i].hash != trace[j].hash
    {
      assert trace[..j][i] == trace[i];
      assert trace[i].hash in Admitted(trace[..j]);
      TraceFitsAt(trace, s, prims, disk, dirs0, data, positions, j);
    }
  }

  /** No two frames of one run write the same path, whether their writes completed or not. */
  lemma WrittenPathsDistinct<H>(trace: seq<FrameOutcome<H>>, s: Settings, prims: Primitives<H>, disk: Disk, dirs0: set<Dir>,
                                data: Bytes, positions: seq<nat>)
    requires TraceFits(trace, s, prims, disk, dirs0, data, positions)
    ensures forall i, j :: 0 <= i < j < |trace| && trace[i].Writes() && trace[j].Writes() ==>
              trace[i].Target() != trace[j].Target()
  {
    forall i, j | 0 <= i < j < |trace| && trace[i].Writes() && trace[j].Writes()
      ensures trace[i].Target() != trace[j].Target()
    {
      TargetOfFrame(trace, s, prims, disk, dirs0, data, positions, i);
      TargetOfFrame(trace, s, prims, disk, dirs0, data, positions, j);
      var pi := prims.decompress(Suffix(data, positions[i])).value;
      var pj := prims.decompress(Suffix(data, positions[j])).value;
      FrameInfoPathsDistinct(s, i, pi, j, pj);
    }
  }

  /** The file map after the frames of a trace have written over `files0`, in order. */
  ghost function Written<H>(files0: map<Path, Bytes>, trace: seq<FrameOutcome<H>>, prims: Primitives<H>,
                            data: Bytes, positions: seq<nat>): map<Path, Bytes>
    requires |trace| <= |positions|
    decreases |trace|
  {
    if trace == [] then files0
    else
      var n := |trace| - 1;
      AfterFrame(Written(files0, trace[..n], prims, data, positions), trace[n],
                 prims.decompress(Suffix(data, positions[n])))
  }

  /** The paths present after a run are the old ones plus those the frames wrote. */
  lemma {:induction false} WrittenKeys<H>(files0: map<Path, Bytes>, trace: seq<FrameOutcome<H>>, s: Settings,
                                          prims: Primitives<H>, disk: Disk, dirs0: set<Dir>, data: Bytes, positions: seq<nat>)
    requires TraceFits(trace, s, prims, disk, dirs0, data, positions)
    ensures forall p :: p in Written(files0, trace, prims, data, positions) <==> p in files0 || p in WrittenPaths(trace)
    decreases |trace|
  {
    if trace != [] {
      var n := |trace| - 1;
      WrittenPathsSnoc(trace[..n], trace[n]);
      assert trace[..n] + [trace[n]] == trace;
      WrittenKeys(files0, trace[..n], s, prims, disk, dirs0, data, positions);
      TraceFitsAt(trace, s, prims, disk, dirs0, data, positions, n);
    }
  }

  /** A file that no frame wrote keeps its old contents. */
  lemma {:induction false} WrittenUntouched<H>(files0: map<Path, Bytes>, trace: seq<FrameOutcome<H>>, s: Settings,
                                               prims: Primitives<H>, disk: Disk, dirs0: set<Dir>, data: Bytes, positions: seq<nat>)
    requires TraceFits(trace, s, prims, disk, dirs0, data, positions)
    ensures forall p :: p in files0 && p !in WrittenPaths(trace) ==>
              p in Written(files0, trace, prims, data, positions) && Written(files0, trace, prims, data, positions)[p] == files0[p]
    decreases |trace|
  {
    if trace != [] {
      var n := |trace| - 1;
      WrittenPathsSnoc(trace[..n], trace[n]);
      assert trace[..n] + [trace[n]] == trace;
      WrittenUntouched(files0, trace[..n], s, prims, disk, dirs0, data, positions);
    }
  }

  /** The file frame k wrote holds, at the end of the run, what that frame wrote there. */
  lemma {:induction false} WrittenAt<H>(files0: map<Path, Bytes>, trace: seq<FrameOutcome<H>>, s: Settings,
                                        prims: Primitives<H>, disk: Disk, dirs0: set<Dir>, data: Bytes, positions: seq<nat>,
                                        k: nat)
    requires TraceFits(trace, s, prims, disk, dirs0, data, positions)
    requires k < |trace| && trace[k].Writes()
    ensures prims.decompress(Suffix(data, positions[k])).Some?
    ensures var files := Written(files0, trace, prims, data, positions);
      trace[k].Target() in files &&
      files[trace[k].Target()] == (if trace[k].Extracted? then prims.decompress(Suffix(data, positions[k])).value
                                   else trace[k].left.value)
    decreases |trace|
  {
    var n := |trace| - 1;
    TargetOfFrame(trace, s, prims, disk, dirs0, data, positions, k);
    if k < n {
      var t := trace[..n];
      assert t[k] == trace[k];
      WrittenAt(files0, t, s, prims, disk, dirs0, data, positions, k);
      if trace[n].Writes() {
        TargetOfFrame(trace, s, prims, disk, dirs0, data, positions, n);
        FrameInfoPathsDistinct(s, k, prims.decompress(Suffix(data, positions[k])).value,
                               n, prims.decompress(Suffix(data, positions[n])).value);
      }
      AfterFrameElsewhere(Written(files0, t, prims, data, positions), trace[n],
                          prims.decompress(Suffix(data, positions[n])), trace[k].Target());
    }
  }

  /**
   * At the end of the run every saved frame's file holds that frame's payload, and every
   * file whose write broke off holds what was left of it, a prefix of the payload.
   */
  lemma WrittenHolds<H>(files0: map<Path, Bytes>, trace: seq<FrameOutcome<H>>, s: Settings,
                        prims: Primitives<H>, disk: Disk, dirs0: set<Dir>, data: Bytes, positions: seq<nat>)
    requires TraceFits(trace, s, prims, disk, dirs0, data, positions)
    ensures forall k :: 0 <= k < |trace| && trace[k].Extracted? ==>
              trace[k].info.path in Written(files0, trace, prims, data, positions) &&
              Some(Written(files0, trace, prims, data, positions)[trace[k].info.path]) == prims.decompress(Suffix(data, positions[k]))
    ensures forall k :: 0 <= k < |trace| && trace[k].WriteFailed? && trace[k].left.Some? ==>
              trace[k].path in Written(files0, trace, prims, data, positions) &&
              Written(files0, trace, prims, data, positions)[trace[k].path] == trace[k].left.value &&
              prims.decompress(Suffix(data, positions[k])).Some? &&
              trace[k].left.value <= prims.decompress(Suffix(data, positions[k])).value
  {
    forall k | 0 <= k < |trace| && trace[k].Writes()
      ensures prims.decompress(Suffix(data, positions[k])).Some?
      ensures trace[k].Target() in Written(files0, trace, prims, data, positions)
      ensures Written(files0, trace, prims, data, positions)[trace[k].Target()] ==
              (if trace[k].Extracted? then prims.decompress(Suffix(data, positions[k])).value else trace[k].left.value)
      ensures trace[k].WriteFailed? ==> trace[k].left.value <= prims.decompress(Suffix(data, positions[k])).value
    {
      WrittenAt(files0, trace, s, prims, disk, dirs0, data, positions, k);
      TargetOfFrame(trace, s, prims, disk, dirs0, data, positions, k);
    }
  }

  /**
   * The files after a run: what the frames left at their paths, the only new paths are
   * those the frames wrote, and every other existing file is untouched.
   */
  lemma WrittenFiles<H>(files0: map<Path, Bytes>, trace: seq<FrameOutcome<H>>, s: Settings,
                        prims: Primitives<H>, disk: Disk, dirs0: set<Dir>, data: Bytes, positions: seq<nat>)
    requires TraceFits(trace, s, prims, disk, dirs0, data, positions)
    ensures var files := Written(files0, trace, prims, data, positions);
      && (forall k :: 0 <= k < |trace| && trace[k].Extracted? ==>
            trace[k].info.path in files && Some(files[trace[k].info.path]) == prims.decompress(Suffix(data, positions[k])))
      && (forall k :: 0 <= k < |trace| && trace[k].WriteFailed? && trace[k].left.Some? ==>
            trace[k].path in files && files[trace[k].path] == trace[k].left.value)
      && (forall p :: p in files <==> p in files0 || p in WrittenPaths(trace))
      && (forall p :: p in files0 && p !in WrittenPaths(trace) ==> files[p] == files0[p])
  {
    WrittenKeys(files0, trace, s, prims, disk, dirs0, data, positions);
    WrittenUntouched(files0, trace, s, prims, disk, dirs0, data, positions);
    WrittenHolds(files0, trace, s, prims, disk, dirs0, data, positions);
  }

  /** A frame's write leaves every other path as it was. */
  lemma AfterFrameElsewhere<H>(files: map<Path, Bytes>, r: FrameOutcome<H>, payload: Option<Bytes>, p: Path)
    requires r.Writes() ==> r.Target() != p
    ensures (p in AfterFrame(files, r, payload) <==> p in files)
    ensures p in files ==> AfterFrame(files, r, payload)[p] == files[p]
  {
  }

  /** The last frame's path, when it wrote, is not among the paths written before it. */
  lemma LastPathFresh<H>(trace: seq<FrameOutcome<H>>, s: Settings, prims: Primitives<H>, disk: Disk, dirs0: set<Dir>,
                         data: Bytes, positions: seq<nat>)
    requires TraceFits(trace, s, prims, disk, dirs0, data, positions)
    requires trace != [] && trace[|trace| - 1].Writes()
    ensures trace[|trace| - 1].Target() !in WrittenPaths(trace[..|trace| - 1])
  {
    var n := |trace| - 1;
    if trace[n].Target() in WrittenPaths(trace[..n]) {
      var k :| 0 <= k < n && trace[..n][k].Writes() && trace[..n][k].Target() == trace[n].Target();
      TargetOfFrame(trace, s, prims, disk, dirs0, data, positions, k);
      TargetOfFrame(trace, s, prims, disk, dirs0, data, positions, n);
      FrameInfoPathsDistinct(s, k, prims.decompress(Suffix(data, positions[k])).value,
                             n, prims.decompress(Suffix(data, positions[n])).value);
    }
  }

  /** The category folders created by the frames of a trace. */
  ghost function DirsMade<H>(trace: seq<FrameOutcome<H>>, s: Settings, prims: Primitives<H>,
                             data: Bytes, positions: seq<nat>): set<Dir>
    requires |trace| <= |positions|
    decreases |trace|
  {
    if trace == [] then {}
    else
      var n := |trace| - 1;
      DirsMade(trace[..n], s, prims, data, positions) + FrameDirs(trace[n], s, prims, data, positions[n], n)
  }

  /** Every folder a run creates is a category folder of the map, directly under the output root. */
  lemma {:induction false} DirsMadeUnderRoot<H>(trace: seq<FrameOutcome<H>>, s: Settings, prims: Primitives<H>,
                                                data: Bytes, positions: seq<nat>, d: Dir)
    requires s.categoryMap == GUI_CATEGORY_MAP || s.categoryMap == CATEGORY_MAP
    requires |trace| <= |positions| && d in DirsMade(trace, s, prims, data, positions)
    ensures d.root == s.outputRoot && d.category in s.categoryMap.Values
    decreases |trace|
  {
    var n := |trace| - 1;
    if d in DirsMade(trace[..n], s, prims, data, positions) {
      DirsMadeUnderRoot(trace[..n], s, prims, data, positions, d);
    } else {
      FrameInfoPlacement(s, n, prims.decompress(Suffix(data, positions[n])).value);
    }
  }

  /**
   * What a serial run has built after the frames of `trace`: the files over `files0`, the
   * folders over `dirs0`, the admitted hashes (kept only with dedup on) and the saved count.
   */
  ghost predicate RunState<H>(s: Settings, prims: Primitives<H>, disk: Disk, data: Bytes, positions: seq<nat>,
                              trace: seq<FrameOutcome<H>>, files0: map<Path, Bytes>, dirs0: set<Dir>,
                              files: map<Path, Bytes>, dirs: set<Dir>, seen: set<H>, count: nat)
  {
    && TraceFits(trace, s, prims, disk, dirs0, data, positions)
    && files == Written(files0, trace, prims, data, positions)
    && dirs == dirs0 + DirsMade(trace, s, prims, data, positions)
    && seen == (if s.enableMd5 then Admitted(trace) else {})
    && count == CountExtracted(trace)
  }

  /** One more frame, with the effects a frame has on the files, the folders, the hash set and the count. */
  lemma RunStateAdvance<H>(s: Settings, prims: Primitives<H>, disk: Disk, data: Bytes, positions: seq<nat>,
                           trace: seq<FrameOutcome<H>>, r: FrameOutcome<H>, files0: map<Path, Bytes>, dirs0: set<Dir>,
                           files: map<Path, Bytes>, dirs: set<Dir>, seen: set<H>, count: nat,
                           files': map<Path, Bytes>, dirs': set<Dir>, seen': set<H>, count': nat)
    requires |trace| < |positions|
    requires RunState(s, prims, disk, data, positions, trace, files0, dirs0, files, dirs, seen, count)
    requires FrameFits(r, s, prims, disk, data, positions[|trace|], |trace|, seen, dirs)
    requires files' == AfterFrame(files, r, prims.decompress(Suffix(data, positions[|trace|])))
    requires dirs' == dirs + FrameDirs(r, s, prims, data, positions[|trace|], |trace|)
    requires seen' == (if r.Extracted? && s.enableMd5 then seen + {r.hash} else seen)
    requires count' == count + (if r.Extracted? then 1 else 0)
    ensures RunState(s, prims, disk, data, positions, trace + [r], files0, dirs0, files', dirs', seen', count')
  {
    var t := trace + [r];
    assert t[..|trace|] == trace;
    CountSnoc(trace, r);
    AdmittedSnoc(trace, r);
  }
}
