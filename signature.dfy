/**
 * The Zstandard frame signature and the search for it.
 *
 * A frame begins with the magic number 0xFD2FB528 (section 3.1.1 of RFC 8878),
 * stored little-endian, so the container is searched for the bytes 28 B5 2F FD.
 */
module Signature {
  import opened Base

  const ZSTD_MAGIC: Bytes := [0x28, 0xB5, 0x2F, 0xFD]

  /** The four magic bytes start at index k of data. */
  predicate MagicAt(data: Bytes, k: int) {
    0 <= k && k + 4 <= |data| &&
    data[k] == 0x28 && data[k + 1] == 0xB5 && data[k + 2] == 0x2F && data[k + 3] == 0xFD
  }

  lemma MagicAtIsSlice(data: Bytes, k: int)
    requires 0 <= k && k + 4 <= |data|
    ensures MagicAt(data, k) <==> data[k..k + 4] == ZSTD_MAGIC
  {
    if data[k..k + 4] == ZSTD_MAGIC {
      assert data[k..k + 4][0] == data[k] && data[k..k + 4][3] == data[k + 3];
    }
  }

  /** No proper suffix of the magic is one of its prefixes, so two occurrences never overlap. */
  lemma MagicNoOverlap(data: Bytes, p: int, q: int)
    requires MagicAt(data, p) && MagicAt(data, q) && p < q
    ensures p + 4 <= q
  {
  }

  /**
   * Python's `data.find(ZSTD_MAGIC, start)` for start >= 0: the lowest occurrence at or
   * after start, or -1 when there is none (also when start lies past the end).
   */
  function FindMagic(data: Bytes, start: nat): (r: int)
    decreases |data| - start
    ensures r == -1 || (start <= r && MagicAt(data, r))
    ensures forall k :: start <= k && (r == -1 || k < r) ==> !MagicAt(data, k)
  {
    if start + 4 > |data| then -1
    else if MagicAt(data, start) then start
    else FindMagic(data, start + 1)
  }

  /**
   * Reference definition: every index at or after start where the magic occurs,
   * examining each index in turn.
   */
  function MagicPositions(data: Bytes, start: nat): (ps: seq<nat>)
    decreases |data| - start
  {
    if start + 4 > |data| then []
    else if MagicAt(data, start) then [start] + MagicPositions(data, start + 1)
    else MagicPositions(data, start + 1)
  }

  /** MagicPositions lists exactly the occurrences at or after start, in strictly ascending order. */
  lemma {:induction false} MagicPositionsSpec(data: Bytes, start: nat)
    ensures forall i :: 0 <= i < |MagicPositions(data, start)| ==>
              start <= MagicPositions(data, start)[i] && MagicAt(data, MagicPositions(data, start)[i])
    ensures forall k :: start <= k && MagicAt(data, k) ==> k in MagicPositions(data, start)
    ensures forall i, j :: 0 <= i < j < |MagicPositions(data, start)| ==>
              MagicPositions(data, start)[i] < MagicPositions(data, start)[j]
    decreases |data| - start
  {
    if start + 4 <= |data| {
      MagicPositionsSpec(data, start + 1);
    }
  }

  /** Every occurrence of the magic in data, in ascending order. */
  function AllMagicPositions(data: Bytes): seq<nat> { MagicPositions(data, 0) }

  /** The i-th reported position holds a magic. */
  lemma PositionIsMagic(data: Bytes, i: nat)
    requires i < |AllMagicPositions(data)|
    ensures MagicAt(data, AllMagicPositions(data)[i])
  {
    MagicPositionsSpec(data, 0);
  }

  /** Skipping a stretch that holds no occurrence loses nothing. */
  lemma {:induction false} PositionsSkip(data: Bytes, lo: nat, hi: nat)
    requires lo <= hi
    requires forall k :: lo <= k < hi ==> !MagicAt(data, k)
    ensures MagicPositions(data, lo) == MagicPositions(data, hi)
    decreases hi - lo
  {
    if lo < hi && lo + 4 <= |data| {
      PositionsSkip(data, lo + 1, hi);
    }
  }

  /** find returns the head of the remaining occurrences, or -1 exactly when none remain. */
  lemma FindIsFirstPosition(data: Bytes, start: nat)
    ensures FindMagic(data, start) == -1 <==> MagicPositions(data, start) == []
    ensures FindMagic(data, start) != -1 ==>
              MagicPositions(data, start) == [FindMagic(data, start)] + MagicPositions(data, FindMagic(data, start) + 1)
  {
    var r := FindMagic(data, start);
    var ps := MagicPositions(data, start);
    MagicPositionsSpec(data, start);
    assert ps != [] ==> start <= ps[0] && MagicAt(data, ps[0]);
    assert r != -1 ==> r in ps;
    if r != -1 {
      PositionsSkip(data, start, r);
    }
  }

  /** After an occurrence at p, the next one cannot start before p + 4. */
  lemma PositionsAfterMagic(data: Bytes, p: nat)
    requires MagicAt(data, p)
    ensures MagicPositions(data, p + 1) == MagicPositions(data, p + 4)
  {
    forall k | p + 1 <= k < p + 4 ensures !MagicAt(data, k) {
      if MagicAt(data, k) { MagicNoOverlap(data, p, k); }
    }
    PositionsSkip(data, p + 1, p + 4);
  }
}
