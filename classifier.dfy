/**
 * Content classification: `detect_file_extension` (identical in all three programs)
 * and the extension-to-category lookups `FILE_CATEGORY_MAP.get(ext, "未知文件")`.
 */
module Classifier {
  import opened Base
  import opened Signature

  const MESH_MAGIC: Bytes := [0x34, 0x80, 0xC8, 0xBB]
  /** "\x89PNG" */
  const PNG_MAGIC: Bytes := [0x89, 0x50, 0x4E, 0x47]
  /** "\xABKTX 11\xBB" */
  const KTX_MAGIC: Bytes := [0xAB, 0x4B, 0x54, 0x58, 0x20, 0x31, 0x31, 0xBB]
  /** "DDS" */
  const DDS_MAGIC: Bytes := [0x44, 0x44, 0x53]
  /** "RIFF" at offset 0 and "WAVE" at offset 8 */
  const RIFF_MAGIC: Bytes := [0x52, 0x49, 0x46, 0x46]
  const WAVE_MAGIC: Bytes := [0x57, 0x41, 0x56, 0x45]
  /** "BKHD" */
  const BKHD_MAGIC: Bytes := [0x42, 0x4B, 0x48, 0x44]
  /** "AKPK" */
  const AKPK_MAGIC: Bytes := [0x41, 0x4B, 0x50, 0x4B]
  /** "TRUEVISION-XFILE.\0", the 18-byte TGA footer signature */
  const TGA_TAIL_MAGIC: Bytes :=
    [0x54, 0x52, 0x55, 0x45, 0x56, 0x49, 0x53, 0x49, 0x4F, 0x4E, 0x2D, 0x58, 0x46, 0x49, 0x4C, 0x45, 0x2E, 0x00]

  /** `len(data) >= len(magic) and data[:len(magic)] == magic` */
  predicate HasPrefix(data: Bytes, magic: Bytes) {
    |data| >= |magic| && data[..|magic|] == magic
  }

  /** The WEM test: length at least 12, "RIFF" at 0..4 and "WAVE" at 8..12. */
  predicate IsRiffWave(data: Bytes) {
    |data| >= 12 && data[..4] == RIFF_MAGIC && data[8..12] == WAVE_MAGIC
  }

  /** `len(data) >= 18 and data[-18:] == TGA_TAIL_MAGIC` */
  predicate HasTgaTail(data: Bytes) {
    |data| >= |TGA_TAIL_MAGIC| && data[|data| - |TGA_TAIL_MAGIC|..] == TGA_TAIL_MAGIC
  }

  /** The labels the classifier can return. */
  const EXTENSIONS: set<string> := {".mesh", ".png", ".ktx", ".dds", ".wem", ".bnk", ".npk", ".zst", ".tga", ""}

  /** The prefix-checked labels, in the order the checks run. */
  const PRIORITY: seq<string> := [".mesh", ".png", ".ktx", ".dds", ".wem", ".bnk", ".npk", ".zst"]

  /** The structural test that stands behind each prefix-checked label. */
  predicate PrefixMatch(data: Bytes, ext: string) {
    if ext == ".mesh" then HasPrefix(data, MESH_MAGIC)
    else if ext == ".png" then HasPrefix(data, PNG_MAGIC)
    else if ext == ".ktx" then HasPrefix(data, KTX_MAGIC)
    else if ext == ".dds" then HasPrefix(data, DDS_MAGIC)
    else if ext == ".wem" then IsRiffWave(data)
    else if ext == ".bnk" then HasPrefix(data, BKHD_MAGIC)
    else if ext == ".npk" then HasPrefix(data, AKPK_MAGIC)
    else if ext == ".zst" then HasPrefix(data, ZSTD_MAGIC)
    else false
  }

  predicate AnyPrefixMatch(data: Bytes) {
    exists i :: 0 <= i < |PRIORITY| && PrefixMatch(data, PRIORITY[i])
  }

  /** `detect_file_extension`: a first-match chain of prefix checks, then the TGA footer. */
  function DetectFileExtension(data: Bytes): (ext: string)
    ensures ext in EXTENSIONS
    ensures data == [] ==> ext == ""
    ensures ext == "" || ext[0] == '.'
  {
    if data == [] then ""
    else if HasPrefix(data, MESH_MAGIC) then ".mesh"
    else if HasPrefix(data, PNG_MAGIC) then ".png"
    else if HasPrefix(data, KTX_MAGIC) then ".ktx"
    else if HasPrefix(data, DDS_MAGIC) then ".dds"
    else if IsRiffWave(data) then ".wem"
    else if HasPrefix(data, BKHD_MAGIC) then ".bnk"
    else if HasPrefix(data, AKPK_MAGIC) then ".npk"
    else if HasPrefix(data, ZSTD_MAGIC) then ".zst"
    else if HasTgaTail(data) then ".tga"
    else ""
  }

  /** The leading byte each prefix-checked label demands. */
  function LeadByte(ext: string): bv8 {
    if ext == ".mesh" then 0x34
    else if ext == ".png" then 0x89
    else if ext == ".ktx" then 0xAB
    else if ext == ".dds" then 0x44
    else if ext == ".wem" then 0x52
    else if ext == ".bnk" then 0x42
    else if ext == ".npk" then 0x41
    else 0x28
  }

  lemma PrefixMatchLeadByte(data: Bytes, ext: string)
    requires PrefixMatch(data, ext)
    ensures |data| > 0 && data[0] == LeadByte(ext)
  {
    if ext == ".mesh" { assert data[..4][0] == data[0]; }
    else if ext == ".png" { assert data[..4][0] == data[0]; }
    else if ext == ".ktx" { assert data[..8][0] == data[0]; }
    else if ext == ".dds" { assert data[..3][0] == data[0]; }
    else if ext == ".wem" { assert data[..4][0] == data[0]; }
    else if ext == ".bnk" { assert data[..4][0] == data[0]; }
    else if ext == ".npk" { assert data[..4][0] == data[0]; }
    else { assert data[..4][0] == data[0]; }
  }

  /**
   * The eight prefix signatures start with eight different bytes, so at most one of
   * them matches any payload.
   */
  lemma PrefixMatchesExclusive(data: Bytes, i: nat, j: nat)
    requires i < |PRIORITY| && j < |PRIORITY|
    requires PrefixMatch(data, PRIORITY[i]) && PrefixMatch(data, PRIORITY[j])
    ensures i == j
  {
    PrefixMatchLeadByte(data, PRIORITY[i]);
    PrefixMatchLeadByte(data, PRIORITY[j]);
  }

  /** First match wins: label i is returned iff its test passes and no earlier test does. */
  lemma DetectIsFirstMatch(data: Bytes, i: nat)
    requires i < |PRIORITY|
    ensures DetectFileExtension(data) == PRIORITY[i] <==>
              PrefixMatch(data, PRIORITY[i]) && forall j :: 0 <= j < i ==> !PrefixMatch(data, PRIORITY[j])
  {
    PriorityUnfolded(data);
    if data == [] {
      assert !PrefixMatch(data, PRIORITY[i]);
    } else if i == 0 {
    } else if i == 1 {
    } else if i == 2 {
    } else if i == 3 {
    } else if i == 4 {
    } else if i == 5 {
    } else if i == 6 {
    } else {
    }
  }

  /** The priority list, test by test. */
  lemma PriorityUnfolded(data: Bytes)
    ensures PrefixMatch(data, PRIORITY[0]) == HasPrefix(data, MESH_MAGIC)
    ensures PrefixMatch(data, PRIORITY[1]) == HasPrefix(data, PNG_MAGIC)
    ensures PrefixMatch(data, PRIORITY[2]) == HasPrefix(data, KTX_MAGIC)
    ensures PrefixMatch(data, PRIORITY[3]) == HasPrefix(data, DDS_MAGIC)
    ensures PrefixMatch(data, PRIORITY[4]) == IsRiffWave(data)
    ensures PrefixMatch(data, PRIORITY[5]) == HasPrefix(data, BKHD_MAGIC)
    ensures PrefixMatch(data, PRIORITY[6]) == HasPrefix(data, AKPK_MAGIC)
    ensures PrefixMatch(data, PRIORITY[7]) == HasPrefix(data, ZSTD_MAGIC)
    ensures !AnyPrefixMatch(data) <==>
              !HasPrefix(data, MESH_MAGIC) && !HasPrefix(data, PNG_MAGIC) && !HasPrefix(data, KTX_MAGIC) &&
              !HasPrefix(data, DDS_MAGIC) && !IsRiffWave(data) && !HasPrefix(data, BKHD_MAGIC) &&
              !HasPrefix(data, AKPK_MAGIC) && !HasPrefix(data, ZSTD_MAGIC)
  {
    if !AnyPrefixMatch(data) {
      assert !PrefixMatch(data, PRIORITY[0]) && !PrefixMatch(data, PRIORITY[1]);
      assert !PrefixMatch(data, PRIORITY[2]) && !PrefixMatch(data, PRIORITY[3]);
      assert !PrefixMatch(data, PRIORITY[4]) && !PrefixMatch(data, PRIORITY[5]);
      assert !PrefixMatch(data, PRIORITY[6]) && !PrefixMatch(data, PRIORITY[7]);
    }
  }

  /**
   * Because the prefix tests exclude one another, each prefix-checked label is returned
   * exactly when its own test passes; in particular mesh beats everything and any payload
   * starting with "DDS" is a DDS texture whatever follows.
   */
  lemma DetectPrefixLabel(data: Bytes, i: nat)
    requires i < |PRIORITY|
    ensures DetectFileExtension(data) == PRIORITY[i] <==> PrefixMatch(data, PRIORITY[i])
  {
    DetectIsFirstMatch(data, i);
    if PrefixMatch(data, PRIORITY[i]) {
      forall j | 0 <= j < i ensures !PrefixMatch(data, PRIORITY[j]) {
        if PrefixMatch(data, PRIORITY[j]) { PrefixMatchesExclusive(data, i, j); }
      }
    }
  }

  /** The TGA footer is consulted only when no prefix test matched. */
  lemma DetectTga(data: Bytes)
    ensures DetectFileExtension(data) == ".tga" <==> !AnyPrefixMatch(data) && HasTgaTail(data)
  {
    PriorityUnfolded(data);
    if AnyPrefixMatch(data) {
      var i :| 0 <= i < |PRIORITY| && PrefixMatch(data, PRIORITY[i]);
      DetectPrefixLabel(data, i);
    }
  }

  /** The empty label means: empty payload, or no test at all matched. */
  lemma DetectUnknown(data: Bytes)
    ensures DetectFileExtension(data) == "" <==> !AnyPrefixMatch(data) && !HasTgaTail(data)
  {
    PriorityUnfolded(data);
    if AnyPrefixMatch(data) {
      var i :| 0 <= i < |PRIORITY| && PrefixMatch(data, PRIORITY[i]);
      DetectPrefixLabel(data, i);
    }
  }

  /** The category used when a label is missing from the map, and for the empty label. */
  const UNKNOWN_CATEGORY: string := "未知文件"

  /** `FILE_CATEGORY_MAP` of the desktop program (audio goes to "普通文件"). */
  const GUI_CATEGORY_MAP: map<string, string> := map[
    ".wem" := "普通文件", ".bnk" := "普通文件",
    ".png" := "图片文件", ".dds" := "图片文件", ".ktx" := "图片文件", ".tga" := "图片文件",
    ".mesh" := "模型文件", ".npk" := "数据文件", ".zst" := "压缩文件", "" := UNKNOWN_CATEGORY]

  /** `FILE_CATEGORY_MAP` of the two command-line programs, which share it. */
  const CATEGORY_MAP: map<string, string> := map[
    ".wem" := "音频文件", ".bnk" := "音频文件",
    ".png" := "图片纹理", ".dds" := "图片纹理", ".ktx" := "图片纹理", ".tga" := "图片纹理",
    ".mesh" := "模型文件", ".npk" := "数据包文件", ".zst" := "压缩文件", "" := UNKNOWN_CATEGORY]

  /** `m.get(ext, "未知文件")` */
  function CategoryOf(m: map<string, string>, ext: string): string {
    if ext in m then m[ext] else UNKNOWN_CATEGORY
  }

  /**
   * Every label the classifier returns is a key of both maps, so the lookup never falls
   * back to its default; the empty label lands in the unknown bucket.
   */
  lemma CategoryLookupTotal(data: Bytes)
    ensures DetectFileExtension(data) in GUI_CATEGORY_MAP && DetectFileExtension(data) in CATEGORY_MAP
    ensures CategoryOf(GUI_CATEGORY_MAP, "") == UNKNOWN_CATEGORY && CategoryOf(CATEGORY_MAP, "") == UNKNOWN_CATEGORY
  {
    assert EXTENSIONS == GUI_CATEGORY_MAP.Keys == CATEGORY_MAP.Keys;
  }

  /** The two maps bucket audio, images and packages under different names, and agree elsewhere. */
  lemma CategoryMapsCompared(ext: string)
    requires ext in EXTENSIONS
    ensures ext in {".wem", ".bnk"} ==> CategoryOf(GUI_CATEGORY_MAP, ext) == "普通文件" && CategoryOf(CATEGORY_MAP, ext) == "音频文件"
    ensures ext in {".png", ".dds", ".ktx", ".tga"} ==> CategoryOf(GUI_CATEGORY_MAP, ext) == "图片文件" && CategoryOf(CATEGORY_MAP, ext) == "图片纹理"
    ensures ext == ".npk" ==> CategoryOf(GUI_CATEGORY_MAP, ext) == "数据文件" && CategoryOf(CATEGORY_MAP, ext) == "数据包文件"
    ensures ext in {".mesh", ".zst", ""} ==> CategoryOf(GUI_CATEGORY_MAP, ext) == CategoryOf(CATEGORY_MAP, ext)
  {
  }
}
