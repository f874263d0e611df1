/** The unbounded frame scan: `scan_zstd_frames` and the identical loop in `extract_zstd_container`. */
module Scanner {
  import opened Base
  import opened Signature

  /**
   * Repeatedly finds the magic from pos, records the hit and resumes four bytes after it.
   * Because the magic never overlaps itself, skipping four bytes loses nothing: the result
   * is every occurrence, in ascending order (see MagicPositionsSpec).
   */
  method ScanZstdFrames(data: Bytes) returns (positions: seq<nat>)
    ensures positions == AllMagicPositions(data)
  {
    positions := [];
    var pos := 0;
    while true
      invariant pos <= |data|
      invariant positions + MagicPositions(data, pos) == MagicPositions(data, 0)
      decreases |data| - pos
    {
      var found := FindMagic(data, pos);
      FindIsFirstPosition(data, pos);
      if found == -1 {
        break;
      }
      PositionsAfterMagic(data, found);
      assert MagicPositions(data, pos) == [found] + MagicPositions(data, found + 4);
      assert positions + [found] + MagicPositions(data, found + 4) == MagicPositions(data, 0);
      positions := positions + [found];
      pos := found + |ZSTD_MAGIC|;
    }
    assert MagicPositions(data, pos) == [];
    assert positions == MagicPositions(data, 0);
  }
}
