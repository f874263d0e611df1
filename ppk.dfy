/**
 * The PPK extractor: the windowed block scan of `process_ppk_file`, with its global
 * fingerprint set over compressed blocks, and the name filter and totals of `main`.
 */
module Ppk {
  import opened Base
  import opened Signature
  import opened Classifier
  import opened Naming
  import opened Files
  import opened Extraction

  /** A block never reaches more than 20 MiB past its magic. */
  const MAX_BLOCK_SIZE: nat := 20 * 1024 * 1024
  /** Blocks shorter than this are counted but otherwise ignored. */
  const MIN_BLOCK_SIZE: nat := 1024
  /** A failed file reports at most this many characters of its error. */
  const ERROR_LIMIT: nat := 100

  /**
   * `block_end`: the next magic at or after magicPos + 4 (or the end of the data), but no
   * further than MAX_BLOCK_SIZE bytes from magicPos. The block never swallows another
   * magic, and when it stops short of both limits it stops at the next one.
   */
  function BlockEnd(data: Bytes, magicPos: nat): (e: nat)
    requires MagicAt(data, magicPos)
    ensures magicPos < e <= |data|
    ensures e - magicPos <= MAX_BLOCK_SIZE
    ensures forall k :: magicPos < k < e ==> !MagicAt(data, k)
    ensures e < |data| && e < magicPos + MAX_BLOCK_SIZE ==> MagicAt(data, e)
  {
    var next := FindMagic(data, magicPos + 4);
    NoMagicJustAfter(data, magicPos);
    Min(if next != -1 then next else |data|, magicPos + MAX_BLOCK_SIZE)
  }

  lemma NoMagicJustAfter(data: Bytes, p: nat)
    requires MagicAt(data, p)
    ensures forall k :: p < k < p + 4 ==> !MagicAt(data, k)
  {
    forall k | p < k < p + 4 ensures !MagicAt(data, k) {
      if MagicAt(data, k) {
        MagicNoOverlap(data, p, k);
      }
    }
  }

  /** `file_data[magic_pos:block_end]` */
  function Block(data: Bytes, magicPos: nat): Bytes
    requires MagicAt(data, magicPos)
  {
    data[magicPos..BlockEnd(data, magicPos)]
  }

  /**
   * Consecutive occurrences cut consecutive, non-overlapping blocks: each block ends at
   * or before the next magic.
   */
  lemma BlocksDisjoint(data: Bytes, i: nat)
    requires i + 1 < |AllMagicPositions(data)|
    ensures var ps := AllMagicPositions(data);
      MagicAt(data, ps[i]) && BlockEnd(data, ps[i]) <= ps[i + 1]
  {
    var ps := AllMagicPositions(data);
    MagicPositionsSpec(data, 0);
    assert MagicAt(data, ps[i]) && MagicAt(data, ps[i + 1]) && ps[i] < ps[i + 1];
  }

  /** `str(e)[:100]` */
  function Truncate(msg: string): (t: string)
    ensures |t| <= ERROR_LIMIT && |t| <= |msg|
    ensures t == msg[..|t|]
    ensures |msg| <= ERROR_LIMIT ==> t == msg
  {
    if |msg| <= ERROR_LIMIT then msg else msg[..ERROR_LIMIT]
  }

  /** Where a decompressed block is saved: output_root/category/{file}_block{k}{ext}. */
  function BlockPath(outputRoot: string, fileName: string, blockIdx: nat, payload: Bytes): Path {
    var ext := DetectFileExtension(payload);
    Path(Dir(outputRoot, CategoryOf(CATEGORY_MAP, ext)), BlockFileName(fileName, blockIdx, ext))
  }

  /** How one block was handled. */
  datatype BlockOutcome<H> =
    | TooSmall
    | KnownBlock(hash: H)
    | Undecodable(hash: H)
    | Saved(hash: H, path: Path)
    /** Creating the category folder raised. */
    | DirCrashed(hash: H, error: string)
    /** Writing the file raised; `left` is what the file holds now if it was opened. */
    | WriteCrashed(hash: H, error: string, path: Path, left: Option<Bytes>)
  {
    /** The block's fingerprint went into `DUPLICATE_MD5` (before decompression). */
    predicate Admits() {
      Undecodable? || Saved? || DirCrashed? || WriteCrashed?
    }

    /** An exception that ends the file's walk. */
    predicate Crashed() {
      DirCrashed? || WriteCrashed?
    }

    /** The block's file was written, wholly or in part. */
    predicate Writes() {
      Saved? || (WriteCrashed? && left.Some?)
    }

    /** The block got as far as creating its category folder. */
    predicate PastMkdir() {
      Saved? || WriteCrashed?
    }
  }

  /**
   * What the block at magicPos may lead to, given the fingerprints seen before it, the disk
   * and the folders present before it. A new block that decompresses is saved unless
   * creating its folder or writing its file raises, as the disk decides.
   */
  ghost predicate BlockFits<H>(o: BlockOutcome<H>, prims: Primitives<H>, disk: Disk, outputRoot: string, fileName: string,
                               data: Bytes, magicPos: nat, seenBefore: set<H>, blockIdx: nat, dirsBefore: set<Dir>)
    requires MagicAt(data, magicPos)
  {
    var block := Block(data, magicPos);
    var payload := prims.decompress(block);
    var large := |block| >= MIN_BLOCK_SIZE;
    var isNew := large && prims.md5(block) !in seenBefore;
    match o
    case TooSmall => !large
    case KnownBlock(h) => large && h == prims.md5(block) && h in seenBefore
    case Undecodable(h) => isNew && h == prims.md5(block) && payload.None?
    case Saved(h, path) =>
      && isNew && h == prims.md5(block) && payload.Some? && path == BlockPath(outputRoot, fileName, blockIdx, payload.value)
      && disk.MkdirError(dirsBefore, path.dir) == None && disk.WriteError(path) == None
    case DirCrashed(h, e) =>
      && isNew && h == prims.md5(block) && payload.Some?
      && disk.MkdirError(dirsBefore, BlockPath(outputRoot, fileName, blockIdx, payload.value).dir) == Some(e)
    case WriteCrashed(h, e, path, left) =>
      && isNew && h == prims.md5(block) && payload.Some? && path == BlockPath(outputRoot, fileName, blockIdx, payload.value)
      && disk.MkdirError(dirsBefore, path.dir) == None
      && disk.WriteError(path) == Some(e) && left == Leftover(disk.writeFault(path), payload.value)
  }

  /** The file map after one block's write, given its decompressed bytes. */
  function AfterBlock<H>(files: map<Path, Bytes>, o: BlockOutcome<H>, payload: Option<Bytes>): map<Path, Bytes> {
    match (o, payload)
    case (Saved(_, path), Some(bytes)) => files[path := bytes]
    case (WriteCrashed(_, _, path, Some(left)), _) => files[path := left]
    case _ => files
  }

  /** The category folders created by a run of blocks. */
  function BlockDirs<H>(trace: seq<BlockOutcome<H>>): set<Dir> {
    if trace == [] then {}
    else
      var last := trace[|trace| - 1];
      BlockDirs(trace[..|trace| - 1]) + (if last.PastMkdir() then {last.path.dir} else {})
  }

  /** The fingerprints a run of blocks added. */
  function Fingerprints<H>(trace: seq<BlockOutcome<H>>): set<H> {
    if trace == [] then {}
    else
      var last := trace[|trace| - 1];
      Fingerprints(trace[..|trace| - 1]) + (if last.Admits() then {last.hash} else {})
  }

  /** `extracted_blocks`, which is also the next `block_idx`. */
  function SavedCount<H>(trace: seq<BlockOutcome<H>>): (n: nat)
    ensures n <= |trace|
  {
    if trace == [] then 0
    else SavedCount(trace[..|trace| - 1]) + (if trace[|trace| - 1].Saved? then 1 else 0)
  }

  /** Block i of the trace was cut at positions[i] and handled after blocks 0..i-1. */
  ghost predicate BlocksFit<H>(trace: seq<BlockOutcome<H>>, prims: Primitives<H>, disk: Disk, dirs0: set<Dir>, outputRoot: string, fileName: string,
                               data: Bytes, seen0: set<H>)
    decreases |trace|
  {
    var positions := AllMagicPositions(data);
    |trace| <= |positions| &&
    (trace != [] ==>
       var n := |trace| - 1;
       PositionIsMagic(data, n);
       BlocksFit(trace[..n], prims, disk, dirs0, outputRoot, fileName, data, seen0) &&
       BlockFits(trace[n], prims, disk, outputRoot, fileName, data, positions[n],
                 seen0 + Fingerprints(trace[..n]), SavedCount(trace[..n]), dirs0 + BlockDirs(trace[..n])))
  }

  /** Block i of a fitting trace was cut at the i-th occurrence and fits what came before it. */
  lemma {:induction false} BlocksFitAt<H>(trace: seq<BlockOutcome<H>>, prims: Primitives<H>, disk: Disk, dirs0: set<Dir>, outputRoot: string,
                                          fileName: string, data: Bytes, seen0: set<H>, i: nat)
    requires BlocksFit(trace, prims, disk, dirs0, outputRoot, fileName, data, seen0) && i < |trace|
    ensures i < |AllMagicPositions(data)| && MagicAt(data, AllMagicPositions(data)[i])
    ensures BlockFits(trace[i], prims, disk, outputRoot, fileName, data, AllMagicPositions(data)[i],
                      seen0 + Fingerprints(trace[..i]), SavedCount(trace[..i]), dirs0 + BlockDirs(trace[..i]))
    decreases |trace|
  {
    PositionIsMagic(data, i);
    var n := |trace| - 1;
    if i < n {
      BlocksFitAt(trace[..n], prims, disk, dirs0, outputRoot, fileName, data, seen0, i);
      assert trace[..n][..i] == trace[..i];
    }
  }

  /** A block that was fingerprinted leaves its fingerprint in the set for good. */
  lemma {:induction false} FingerprintKept<H>(trace: seq<BlockOutcome<H>>, i: nat)
    requires i < |trace| && trace[i].Admits()
    ensures trace[i].hash in Fingerprints(trace)
    decreases |trace|
  {
    var n := |trace| - 1;
    if i < n {
      FingerprintKept(trace[..n], i);
    }
  }

  /** Saved blocks before position j are numbered below SavedCount(trace[..j]). */
  lemma {:induction false} SavedCountGrows<H>(trace: seq<BlockOutcome<H>>, i: nat, j: nat)
    requires i < j <= |trace|
    ensures SavedCount(trace[..i]) + (if trace[i].Saved? then 1 else 0) <= SavedCount(trace[..j])
    decreases j
  {
    var t := trace[..j];
    assert t[..j - 1] == trace[..j - 1];
    if i < j - 1 {
      SavedCountGrows(trace, i, j - 1);
    }
  }

  /**
   * Within one file and against every file walked before it, a block is decompressed only
   * the first time its compressed bytes are met: no two fingerprinted blocks share a
   * fingerprint, and none had been fingerprinted before the walk.
   */
  lemma FingerprintsFresh<H>(trace: seq<BlockOutcome<H>>, prims: Primitives<H>, disk: Disk, dirs0: set<Dir>, outputRoot: string,
                             fileName: string, data: Bytes, seen0: set<H>)
    requires BlocksFit(trace, prims, disk, dirs0, outputRoot, fileName, data, seen0)
    ensures forall i :: 0 <= i < |trace| && trace[i].Admits() ==> trace[i].hash !in seen0
    ensures forall i, j :: 0 <= i < j < |trace| && trace[i].Admits() && trace[j].Admits() ==>
              trace[i].hash != trace[j].hash
  {
    forall i | 0 <= i < |trace| && trace[i].Admits() ensures trace[i].hash !in seen0 {
      BlocksFitAt(trace, prims, disk, dirs0, outputRoot, fileName, data, seen0, i);
    }
    forall i, j | 0 <= i < j < |trace| && trace[i].Admits() && trace[j].Admits()
      ensures trace[i].hash != trace[j].hash
    {
      assert trace[..j][i] == trace[i];
      FingerprintKept(trace[..j], i);
      BlocksFitAt(trace, prims, disk, dirs0, outputRoot, fileName, data, seen0, j);
    }
  }

  /**
   * A saved block and any later block that writes are numbered apart, so they never share
   * a path.
   */
  lemma SavedPathsDiffer<H>(trace: seq<BlockOutcome<H>>, prims: Primitives<H>, disk: Disk, dirs0: set<Dir>, outputRoot: string,
                            fileName: string, data: Bytes, seen0: set<H>, i: nat, j: nat)
    requires BlocksFit(trace, prims, disk, dirs0, outputRoot, fileName, data, seen0)
    requires i < j < |trace| && trace[i].Saved? && trace[j].Writes()
    ensures trace[i].path != trace[j].path
  {
    BlocksFitAt(trace, prims, disk, dirs0, outputRoot, fileName, data, seen0, i);
    BlocksFitAt(trace, prims, disk, dirs0, outputRoot, fileName, data, seen0, j);
    SavedCountGrows(trace, i, j);
    var ps := AllMagicPositions(data);
    var ei := DetectFileExtension(prims.decompress(Block(data, ps[i])).value);
    var ej := DetectFileExtension(prims.decompress(Block(data, ps[j])).value);
    if trace[i].path == trace[j].path {
      BlockFileNameInjective(fileName, SavedCount(trace[..i]), ei, SavedCount(trace[..j]), ej);
    }
  }

  /** No two saved blocks of one walk share a path. */
  lemma SavedPathsDistinct<H>(trace: seq<BlockOutcome<H>>, prims: Primitives<H>, disk: Disk, dirs0: set<Dir>, outputRoot: string,
                              fileName: string, data: Bytes, seen0: set<H>)
    requires BlocksFit(trace, prims, disk, dirs0, outputRoot, fileName, data, seen0)
    ensures forall i, j :: 0 <= i < j < |trace| && trace[i].Saved? && trace[j].Saved? ==>
              trace[i].path != trace[j].path
  {
    forall i, j | 0 <= i < j < |trace| && trace[i].Saved? && trace[j].Saved?
      ensures trace[i].path != trace[j].path
    {
      SavedPathsDiffer(trace, prims, disk, dirs0, outputRoot, fileName, data, seen0, i, j);
    }
  }

  /** The file map after the blocks of a trace have written over files0. */
  ghost function BlocksWritten<H>(files0: map<Path, Bytes>, trace: seq<BlockOutcome<H>>, prims: Primitives<H>,
                                  data: Bytes): map<Path, Bytes>
    requires |trace| <= |AllMagicPositions(data)|
    decreases |trace|
  {
    if trace == [] then files0
    else
      var n := |trace| - 1;
      PositionIsMagic(data, n);
      AfterBlock(BlocksWritten(files0, trace[..n], prims, data), trace[n],
                 prims.decompress(Block(data, AllMagicPositions(data)[n])))
  }

  /** A path that no block wrote is present, and holds the same bytes, as before the walk. */
  lemma {:induction false} BlocksWrittenElsewhere<H>(files0: map<Path, Bytes>, trace: seq<BlockOutcome<H>>,
                                                     prims: Primitives<H>, data: Bytes, p: Path)
    requires |trace| <= |AllMagicPositions(data)|
    requires forall k :: 0 <= k < |trace| && trace[k].Writes() ==> trace[k].path != p
    ensures var files := BlocksWritten(files0, trace, prims, data);
      (p in files <==> p in files0) && (p in files0 ==> files[p] == files0[p])
    decreases |trace|
  {
    if trace != [] {
      var n := |trace| - 1;
      assert forall k :: 0 <= k < n ==> trace[..n][k] == trace[k];
      BlocksWrittenElsewhere(files0, trace[..n], prims, data, p);
      PositionIsMagic(data, n);
      AfterBlockElsewhere(BlocksWritten(files0, trace[..n], prims, data), trace[n],
                          prims.decompress(Block(data, AllMagicPositions(data)[n])), p);
    }
  }

  /** A block's write leaves every other path as it was. */
  lemma AfterBlockElsewhere<H>(files: map<Path, Bytes>, o: BlockOutcome<H>, payload: Option<Bytes>, p: Path)
    requires o.Writes() ==> o.path != p
    ensures (p in AfterBlock(files, o, payload) <==> p in files)
    ensures p in files ==> AfterBlock(files, o, payload)[p] == files[p]
  {
  }

  /** The file of saved block k holds that block's decompressed bytes at the end of the walk. */
  lemma {:induction false} BlockWrittenHolds<H>(files0: map<Path, Bytes>, trace: seq<BlockOutcome<H>>,
                                                prims: Primitives<H>, disk: Disk, dirs0: set<Dir>, outputRoot: string, fileName: string,
                                                data: Bytes, seen0: set<H>, k: nat)
    requires BlocksFit(trace, prims, disk, dirs0, outputRoot, fileName, data, seen0)
    requires k < |trace| && trace[k].Saved?
    ensures k < |AllMagicPositions(data)| && MagicAt(data, AllMagicPositions(data)[k])
    ensures var files := BlocksWritten(files0, trace, prims, data);
      trace[k].path in files && Some(files[trace[k].path]) == prims.decompress(Block(data, AllMagicPositions(data)[k]))
    decreases |trace|
  {
    var n := |trace| - 1;
    SavedDecodes(trace, prims, disk, dirs0, outputRoot, fileName, data, seen0, k);
    if k < n {
      var t := trace[..n];
      assert t[k] == trace[k];
      BlockWrittenHolds(files0, t, prims, disk, dirs0, outputRoot, fileName, data, seen0, k);
      if trace[n].Writes() {
        SavedPathsDiffer(trace, prims, disk, dirs0, outputRoot, fileName, data, seen0, k, n);
      }
      PositionIsMagic(data, n);
      AfterBlockElsewhere(BlocksWritten(files0, t, prims, data), trace[n],
                          prims.decompress(Block(data, AllMagicPositions(data)[n])), trace[k].path);
    }
  }

  /** A saved block is one that decompressed. */
  lemma SavedDecodes<H>(trace: seq<BlockOutcome<H>>, prims: Primitives<H>, disk: Disk, dirs0: set<Dir>, outputRoot: string,
                        fileName: string, data: Bytes, seen0: set<H>, k: nat)
    requires BlocksFit(trace, prims, disk, dirs0, outputRoot, fileName, data, seen0)
    requires k < |trace| && trace[k].Saved?
    ensures k < |AllMagicPositions(data)| && MagicAt(data, AllMagicPositions(data)[k])
    ensures prims.decompress(Block(data, AllMagicPositions(data)[k])).Some?
  {
    BlocksFitAt(trace, prims, disk, dirs0, outputRoot, fileName, data, seen0, k);
  }

  /** When the walk ends on a broken write, that block's file holds the bytes that reached it. */
  lemma TornBlockHolds<H>(files0: map<Path, Bytes>, trace: seq<BlockOutcome<H>>, prims: Primitives<H>, disk: Disk, dirs0: set<Dir>,
                          outputRoot: string, fileName: string, data: Bytes, seen0: set<H>)
    requires BlocksFit(trace, prims, disk, dirs0, outputRoot, fileName, data, seen0)
    requires trace != [] && trace[|trace| - 1].WriteCrashed? && trace[|trace| - 1].left.Some?
    ensures var n := |trace| - 1;
      var files := BlocksWritten(files0, trace, prims, data);
      && n < |AllMagicPositions(data)| && MagicAt(data, AllMagicPositions(data)[n])
      && trace[n].path in files && files[trace[n].path] == trace[n].left.value
      && prims.decompress(Block(data, AllMagicPositions(data)[n])).Some?
      && trace[n].left.value <= prims.decompress(Block(data, AllMagicPositions(data)[n])).value
  {
    BlocksFitAt(trace, prims, disk, dirs0, outputRoot, fileName, data, seen0, |trace| - 1);
  }

  /** Every path a walk changes, and every folder it creates, lies under its output root. */
  lemma BlocksWrittenUnderRoot<H>(files0: map<Path, Bytes>, trace: seq<BlockOutcome<H>>, prims: Primitives<H>, disk: Disk, dirs0: set<Dir>,
                                  outputRoot: string, fileName: string, data: Bytes, seen0: set<H>, p: Path)
    requires BlocksFit(trace, prims, disk, dirs0, outputRoot, fileName, data, seen0)
    requires p.dir.root != outputRoot
    ensures var files := BlocksWritten(files0, trace, prims, data);
      (p in files <==> p in files0) && (p in files0 ==> files[p] == files0[p])
    ensures p.dir !in BlockDirs(trace)
  {
    forall k | 0 <= k < |trace| && trace[k].PastMkdir() ensures trace[k].path.dir.root == outputRoot {
      BlocksFitAt(trace, prims, disk, dirs0, outputRoot, fileName, data, seen0, k);
    }
    BlocksWrittenElsewhere(files0, trace, prims, data, p);
    BlockDirsOf(trace, p.dir);
  }

  /** A folder is among a walk's created folders exactly when some block got past creating it. */
  lemma {:induction false} BlockDirsOf<H>(trace: seq<BlockOutcome<H>>, d: Dir)
    ensures d in BlockDirs(trace) <==> exists k :: 0 <= k < |trace| && trace[k].PastMkdir() && trace[k].path.dir == d
    decreases |trace|
  {
    if trace != [] {
      var n := |trace| - 1;
      BlockDirsOf(trace[..n], d);
      if d in BlockDirs(trace[..n]) {
        var k :| 0 <= k < n && trace[..n][k].PastMkdir() && trace[..n][k].path.dir == d;
        assert trace[k] == trace[..n][k];
      }
      if exists k :: 0 <= k < |trace| && trace[k].PastMkdir() && trace[k].path.dir == d {
        var k :| 0 <= k < |trace| && trace[k].PastMkdir() && trace[k].path.dir == d;
        if k < n {
          assert trace[..n][k] == trace[k];
        }
      }
    }
  }

  /** The state a file's walk has built after the blocks of `trace`. */
  ghost predicate WalkState<H>(trace: seq<BlockOutcome<H>>, prims: Primitives<H>, disk: Disk, outputRoot: string, fileName: string,
                               data: Bytes, seen0: set<H>, files0: map<Path, Bytes>, dirs0: set<Dir>,
                               seen: set<H>, files: map<Path, Bytes>, dirs: set<Dir>, extracted: nat)
  {
    && BlocksFit(trace, prims, disk, dirs0, outputRoot, fileName, data, seen0)
    && seen == seen0 + Fingerprints(trace)
    && files == BlocksWritten(files0, trace, prims, data)
    && dirs == dirs0 + BlockDirs(trace)
    && extracted == SavedCount(trace)
  }

  lemma BlockStep<H>(trace: seq<BlockOutcome<H>>, o: BlockOutcome<H>, prims: Primitives<H>, disk: Disk, outputRoot: string,
                     fileName: string, data: Bytes, seen0: set<H>, files0: map<Path, Bytes>, dirs0: set<Dir>,
                     seen: set<H>, files: map<Path, Bytes>, dirs: set<Dir>, extracted: nat,
                     seen': set<H>, files': map<Path, Bytes>, dirs': set<Dir>, extracted': nat)
    requires |trace| < |AllMagicPositions(data)|
    requires MagicAt(data, AllMagicPositions(data)[|trace|])
    requires WalkState(trace, prims, disk, outputRoot, fileName, data, seen0, files0, dirs0, seen, files, dirs, extracted)
    requires BlockFits(o, prims, disk, outputRoot, fileName, data, AllMagicPositions(data)[|trace|], seen, extracted, dirs)
    requires seen' == (if o.Admits() then seen + {o.hash} else seen)
    requires files' == AfterBlock(files, o, prims.decompress(Block(data, AllMagicPositions(data)[|trace|])))
    requires dirs' == dirs + (if o.PastMkdir() then {o.path.dir} else {})
    requires extracted' == extracted + (if o.Saved? then 1 else 0)
    ensures WalkState(trace + [o], prims, disk, outputRoot, fileName, data, seen0, files0, dirs0, seen', files', dirs', extracted')
  {
    var t := trace + [o];
    assert t[..|trace|] == trace;
  }

  /**
   * The walk resumed at `offset` after `visited` blocks: the magics still ahead are exactly
   * the occurrences not yet visited.
   */
  ghost predicate Walking(data: Bytes, offset: nat, visited: nat) {
    var positions := AllMagicPositions(data);
    visited <= |positions| && MagicPositions(data, offset) == positions[visited..]
  }

  /** The next magic the walk finds is the next occurrence, and it resumes at the block's end. */
  lemma WalkAdvance(data: Bytes, offset: nat, visited: nat)
    requires Walking(data, offset, visited)
    requires FindMagic(data, offset) != -1
    ensures var p := FindMagic(data, offset);
      && visited < |AllMagicPositions(data)|
      && AllMagicPositions(data)[visited] == p
      && Walking(data, BlockEnd(data, p), visited + 1)
  {
    var positions := AllMagicPositions(data);
    var p := FindMagic(data, offset);
    FindIsFirstPosition(data, offset);
    assert positions[visited..][0] == p;
    PositionsSkip(data, p + 1, BlockEnd(data, p));
    assert positions[visited + 1..] == positions[visited..][1..];
  }

  /** When the walk finds no further magic, or runs off the end, it has visited them all. */
  lemma WalkDone(data: Bytes, offset: nat, visited: nat)
    requires Walking(data, offset, visited)
    requires FindMagic(data, offset) == -1 || offset == |data|
    ensures visited == |AllMagicPositions(data)|
  {
    FindIsFirstPosition(data, offset);
    var positions := AllMagicPositions(data);
    assert |positions[visited..]| == 0;
  }

  /** How reading a PPK file turned out. */
  datatype FileRead = Contents(data: Bytes) | Unreadable(error: string)

  /** The bytes a read produced; an unreadable file offers none. */
  function DataOf(input: FileRead): Bytes {
    if input.Contents? then input.data else []
  }

  /** The dictionary `process_ppk_file` returns. */
  datatype PpkResult =
    | Success(file: string, processed: nat, extracted: nat)
    | Failure(file: string, error: string)

  /**
   * How a file's walk went: an unreadable file is not walked; a readable one has its blocks
   * cut and handled in order against the fingerprints seen before it, only the last block
   * may have raised, and a walk that did not raise visited every occurrence of the magic.
   */
  ghost predicate FileWalk<H>(trace: seq<BlockOutcome<H>>, prims: Primitives<H>, disk: Disk, dirs0: set<Dir>, outputRoot: string,
                              fileName: string, input: FileRead, seen0: set<H>)
  {
    match input
    case Unreadable(_) => trace == []
    case Contents(data) =>
      && BlocksFit(trace, prims, disk, dirs0, outputRoot, fileName, data, seen0)
      && (forall k :: 0 <= k < |trace| - 1 ==> !trace[k].Crashed())
      && ((trace != [] && trace[|trace| - 1].Crashed()) || |trace| == |AllMagicPositions(data)|)
  }

  /** The result reported for a file read as `input` whose walk went as `trace`. */
  function ResultOf<H>(fileName: string, input: FileRead, trace: seq<BlockOutcome<H>>): PpkResult {
    if input.Unreadable? then Failure(fileName, Truncate(input.error))
    else if trace != [] && trace[|trace| - 1].Crashed() then Failure(fileName, Truncate(trace[|trace| - 1].error))
    else Success(fileName, |trace|, SavedCount(trace))
  }

  /**
   * What a file's result says about its walk: an unreadable file fails with its error cut
   * to 100 characters; a readable one succeeds exactly when it visited every occurrence
   * without a raise, and then reports the occurrences and the saved blocks, never more
   * saved than processed; a failure carries the raise's message cut to 100 characters.
   */
  lemma ResultOfWalk<H>(trace: seq<BlockOutcome<H>>, prims: Primitives<H>, disk: Disk, dirs0: set<Dir>, outputRoot: string,
                        fileName: string, input: FileRead, seen0: set<H>)
    requires FileWalk(trace, prims, disk, dirs0, outputRoot, fileName, input, seen0)
    ensures var r := ResultOf(fileName, input, trace);
      && r.file == fileName
      && (r.Failure? ==> |r.error| <= ERROR_LIMIT)
      && (input.Unreadable? ==> r == Failure(fileName, Truncate(input.error)))
      && (input.Contents? ==>
            && (r.Success? <==> |trace| == |AllMagicPositions(input.data)| && (trace == [] || !trace[|trace| - 1].Crashed()))
            && (r.Success? ==> r.processed == |AllMagicPositions(input.data)| && r.extracted <= r.processed)
            && (r.Failure? ==> trace != [] && trace[|trace| - 1].Crashed()))
  {
  }

  /**
   * On a disk where nothing raises, no block of a walk crashes, and a block whose
   * fingerprint was admitted is saved exactly when it decompresses.
   */
  lemma HealthyBlocksSaved<H>(trace: seq<BlockOutcome<H>>, prims: Primitives<H>, disk: Disk, dirs0: set<Dir>,
                              outputRoot: string, fileName: string, data: Bytes, seen0: set<H>)
    requires BlocksFit(trace, prims, disk, dirs0, outputRoot, fileName, data, seen0) && disk.Healthy()
    ensures forall k :: 0 <= k < |trace| ==> !trace[k].Crashed()
    ensures forall k :: 0 <= k < |trace| && trace[k].Admits() ==>
              && k < |AllMagicPositions(data)| && MagicAt(data, AllMagicPositions(data)[k])
              && (trace[k].Saved? <==> prims.decompress(Block(data, AllMagicPositions(data)[k])).Some?)
  {
    forall k | 0 <= k < |trace|
      ensures !trace[k].Crashed()
      ensures trace[k].Admits() ==>
                && k < |AllMagicPositions(data)| && MagicAt(data, AllMagicPositions(data)[k])
                && (trace[k].Saved? <==> prims.decompress(Block(data, AllMagicPositions(data)[k])).Some?)
    {
      BlocksFitAt(trace, prims, disk, dirs0, outputRoot, fileName, data, seen0, k);
    }
  }

  /**
   * On a disk where nothing raises, a readable file's walk visits every occurrence and
   * its result is a success reporting all of them.
   */
  lemma HealthyFileSucceeds<H>(trace: seq<BlockOutcome<H>>, prims: Primitives<H>, disk: Disk, dirs0: set<Dir>,
                               outputRoot: string, fileName: string, data: Bytes, seen0: set<H>)
    requires FileWalk(trace, prims, disk, dirs0, outputRoot, fileName, Contents(data), seen0) && disk.Healthy()
    ensures |trace| == |AllMagicPositions(data)|
    ensures ResultOf(fileName, Contents(data), trace) == Success(fileName, |AllMagicPositions(data)|, SavedCount(trace))
  {
    HealthyBlocksSaved(trace, prims, disk, dirs0, outputRoot, fileName, data, seen0);
  }

  /**
   * One block of the walk, from the cut to the write: skip it when short, skip it when its
   * fingerprint is known, otherwise remember the fingerprint, decompress, classify, create
   * the folder and save it as block number blockIdx. A raising mkdir or write ends in
   * `DirCrashed` or `WriteCrashed`; a raising write may leave its file emptied or partly
   * written.
   */
  method ProcessBlock<H(==)>(data: Bytes, magicPos: nat, fileName: string, outputRoot: string, blockIdx: nat,
                             duplicates: DedupIndex<H>, prims: Primitives<H>, fs: FileSystem)
    returns (o: BlockOutcome<H>)
    requires MagicAt(data, magicPos)
    modifies duplicates, fs
    ensures BlockFits(o, prims, fs.disk, outputRoot, fileName, data, magicPos, old(duplicates.seen), blockIdx, old(fs.dirs))
    ensures duplicates.seen == (if o.Admits() then old(duplicates.seen) + {o.hash} else old(duplicates.seen))
    ensures o.Saved? ==> fs.files == old(fs.files)[o.path := prims.decompress(Block(data, magicPos)).value]
    ensures o.WriteCrashed? && o.left.Some? ==> fs.files == old(fs.files)[o.path := o.left.value]
    ensures !o.Writes() ==> fs.files == old(fs.files)
    ensures fs.dirs == old(fs.dirs) + (if o.PastMkdir() then {o.path.dir} else {})
  {
    var zstdData := data[magicPos..BlockEnd(data, magicPos)];
    if |zstdData| < MIN_BLOCK_SIZE {
      return TooSmall;
    }
    var blockMd5 := prims.md5(zstdData);
    if blockMd5 in duplicates.seen {
      return KnownBlock(blockMd5);
    }
    duplicates.Add(blockMd5);
    var decompressed := prims.decompress(zstdData);
    if decompressed.None? {
      return Undecodable(blockMd5);
    }
    var payload := decompressed.value;
    var fileExt := DetectFileExtension(payload);
    var category := CategoryOf(CATEGORY_MAP, fileExt);
    var categoryDir := Dir(outputRoot, category);
    var err := fs.MakeDirs(categoryDir);
    if err.Some? {
      return DirCrashed(blockMd5, err.value);
    }
    var savePath := Path(categoryDir, BlockFileName(fileName, blockIdx, fileExt));
    var left;
    err, left := fs.WriteFile(savePath, payload);
    if err.Some? {
      return WriteCrashed(blockMd5, err.value, savePath, left);
    }
    o := Saved(blockMd5, savePath);
  }

  /**
   * One round of the walk, given the magic found from `offset`: cut its block and handle it.
   * The round visits the next unvisited occurrence and resumes past its block.
   */
  method WalkOne<H(==)>(fileData: Bytes, offset: nat, magicPos: nat, fileName: string, outputRoot: string, blockIdx: nat,
                        duplicates: DedupIndex<H>, prims: Primitives<H>, fs: FileSystem,
                        ghost trace: seq<BlockOutcome<H>>, ghost seen0: set<H>, ghost files0: map<Path, Bytes>,
                        ghost dirs0: set<Dir>)
    returns (o: BlockOutcome<H>, blockEnd: nat)
    requires magicPos == FindMagic(fileData, offset)
    requires Walking(fileData, offset, |trace|)
    requires WalkState(trace, prims, fs.disk, outputRoot, fileName, fileData, seen0, files0, dirs0,
                       duplicates.seen, fs.files, fs.dirs, blockIdx)
    modifies duplicates, fs
    ensures offset < blockEnd <= |fileData|
    ensures Walking(fileData, blockEnd, |trace| + 1)
    ensures WalkState(trace + [o], prims, fs.disk, outputRoot, fileName, fileData, seen0, files0, dirs0,
                      duplicates.seen, fs.files, fs.dirs, blockIdx + (if o.Saved? then 1 else 0))
  {
    blockEnd := BlockEnd(fileData, magicPos);
    WalkAdvance(fileData, offset, |trace|);
    ghost var before := (duplicates.seen, fs.files, fs.dirs);
    o := ProcessBlock(fileData, magicPos, fileName, outputRoot, blockIdx, duplicates, prims, fs);
    BlockStep(trace, o, prims, fs.disk, outputRoot, fileName, fileData, seen0, files0, dirs0,
              before.0, before.1, before.2, blockIdx,
              duplicates.seen, fs.files, fs.dirs, blockIdx + (if o.Saved? then 1 else 0));
  }

  /**
   * The walk of `process_ppk_file` over the bytes it read: walk the magics from offset 0,
   * cut each block, count it, handle it and resume at its end. Every occurrence is visited
   * exactly once, so a successful walk reports as many processed blocks as the data holds
   * magics. A raise ends the walk with a failure carrying at most 100 characters of its
   * message; what was done before it stays done.
   */
  method WalkBlocks<H(==)>(fileName: string, fileData: Bytes, outputRoot: string,
                           duplicates: DedupIndex<H>, prims: Primitives<H>, fs: FileSystem)
    returns (result: PpkResult, ghost trace: seq<BlockOutcome<H>>)
    modifies duplicates, fs
    ensures result.file == fileName
    ensures var positions := AllMagicPositions(fileData);
      && WalkState(trace, prims, fs.disk, outputRoot, fileName, fileData, old(duplicates.seen), old(fs.files), old(fs.dirs),
                   duplicates.seen, fs.files, fs.dirs, SavedCount(trace))
      && (forall k :: 0 <= k < |trace| - 1 ==> !trace[k].Crashed())
      && (result.Success? <==> |trace| == |positions| && (trace == [] || !trace[|trace| - 1].Crashed()))
      && (result.Success? ==> result.processed == |positions| && result.extracted == SavedCount(trace))
      && (result.Failure? ==> trace != [] && trace[|trace| - 1].Crashed() &&
                              result.error == Truncate(trace[|trace| - 1].error))
  {
    trace := [];
    ghost var positions := AllMagicPositions(fileData);
    ghost var seen0 := duplicates.seen;
    ghost var files0, dirs0 := fs.files, fs.dirs;
    var processedBlocks := 0;
    var extractedBlocks := 0;
    var blockIdx := 0;
    var offset := 0;
    while offset < |fileData|
      invariant offset <= |fileData|
      invariant Walking(fileData, offset, |trace|)
      invariant processedBlocks == |trace| && blockIdx == extractedBlocks
      invariant WalkState(trace, prims, fs.disk, outputRoot, fileName, fileData, seen0, files0, dirs0,
                          duplicates.seen, fs.files, fs.dirs, extractedBlocks)
      invariant forall k :: 0 <= k < |trace| ==> !trace[k].Crashed()
      decreases |fileData| - offset
    {
      var magicPos := FindMagic(fileData, offset);
      if magicPos == -1 {
        WalkDone(fileData, offset, |trace|);
        break;
      }
      processedBlocks := processedBlocks + 1;
      var o, blockEnd := WalkOne(fileData, offset, magicPos, fileName, outputRoot, blockIdx, duplicates, prims, fs,
                                 trace, seen0, files0, dirs0);
      var saved := if o.Saved? then 1 else 0;
      trace := trace + [o];
      if o.Crashed() {
        return Failure(fileName, Truncate(o.error)), trace;
      }
      extractedBlocks := extractedBlocks + saved;
      blockIdx := blockIdx + saved;
      offset := blockEnd;
    }
    if offset == |fileData| {
      WalkDone(fileData, offset, |trace|);
    }
    result := Success(fileName, processedBlocks, extractedBlocks);
  }

  /**
   * `process_ppk_file`: read the file and walk its blocks. A file that cannot be read fails
   * with its error message cut to 100 characters and changes nothing.
   */
  method ProcessPpkFile<H(==)>(fileName: string, input: FileRead, outputRoot: string,
                               duplicates: DedupIndex<H>, prims: Primitives<H>, fs: FileSystem)
    returns (result: PpkResult, ghost trace: seq<BlockOutcome<H>>)
    modifies duplicates, fs
    ensures FileWalk(trace, prims, fs.disk, old(fs.dirs), outputRoot, fileName, input, old(duplicates.seen))
    ensures result == ResultOf(fileName, input, trace)
    ensures duplicates.seen == old(duplicates.seen) + Fingerprints(trace)
    ensures fs.files == BlocksWritten(old(fs.files), trace, prims, DataOf(input))
    ensures fs.dirs == old(fs.dirs) + BlockDirs(trace)
    ensures result.file == fileName
    ensures result.Failure? ==> |result.error| <= ERROR_LIMIT
    ensures result.Success? ==> result.extracted <= result.processed
    ensures input.Unreadable? ==> result == Failure(fileName, Truncate(input.error)) && trace == []
    ensures input.Contents? ==>
      var positions := AllMagicPositions(input.data);
      && (forall k :: 0 <= k < |trace| - 1 ==> !trace[k].Crashed())
      && (result.Success? <==> |trace| == |positions| && (trace == [] || !trace[|trace| - 1].Crashed()))
      && (result.Success? ==> result.processed == |positions| && result.extracted == SavedCount(trace))
      && (result.Failure? ==> trace != [] && trace[|trace| - 1].Crashed() &&
                              result.error == Truncate(trace[|trace| - 1].error))
    ensures input.Contents? && fs.disk.Healthy() ==> result == Success(fileName, |AllMagicPositions(input.data)|, SavedCount(trace))
  {
    if input.Unreadable? {
      return Failure(fileName, Truncate(input.error)), [];
    }
    result, trace := WalkBlocks(fileName, input.data, outputRoot, duplicates, prims, fs);
    if fs.disk.Healthy() {
      HealthyFileSucceeds(trace, prims, fs.disk, old(fs.dirs), outputRoot, fileName, input.data, old(duplicates.seen));
    }
  }
}
