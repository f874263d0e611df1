/** Deterministic output file names and the proof that they never collide. */
module Naming {
  predicate IsDigit(c: char) { '0' <= c <= '9' }

  /** A label that cannot be mistaken for more digits: empty, or starting with a non-digit. */
  predicate DigitFree(ext: string) { ext == "" || !IsDigit(ext[0]) }

  function DigitChar(d: nat): (c: char)
    requires d < 10
    ensures IsDigit(c)
  {
    ('0' as int + d) as char
  }

  /** Python's `str(n)` for a non-negative integer: decimal, no leading zeros. */
  function Decimal(n: nat): (s: string)
    ensures |s| >= 1
    ensures forall i :: 0 <= i < |s| ==> IsDigit(s[i])
  {
    if n < 10 then [DigitChar(n)] else Decimal(n / 10) + [DigitChar(n % 10)]
  }

  lemma {:induction false} DecimalInjective(a: nat, b: nat)
    requires Decimal(a) == Decimal(b)
    ensures a == b
  {
    var da, db := Decimal(a), Decimal(b);
    if a < 10 && b < 10 {
      assert da[0] == db[0];
    } else if 10 <= a && 10 <= b {
      assert da[|da| - 1] == db[|db| - 1];
      assert a % 10 == b % 10;
      assert Decimal(a / 10) == da[..|da| - 1] == db[..|db| - 1] == Decimal(b / 10);
      DecimalInjective(a / 10, b / 10);
    }
  }

  /** Length of the longest run of digits at the start of s. */
  function DigitRun(s: string): nat {
    if s == [] || !IsDigit(s[0]) then 0 else 1 + DigitRun(s[1..])
  }

  lemma {:induction false} DigitRunOfNumber(d: string, e: string)
    requires forall i :: 0 <= i < |d| ==> IsDigit(d[i])
    requires DigitFree(e)
    ensures DigitRun(d + e) == |d|
  {
    if d != [] {
      assert (d + e)[1..] == d[1..] + e;
      DigitRunOfNumber(d[1..], e);
    } else {
      assert d + e == e;
    }
  }

  /** A number followed by a digit-free label can be read back unambiguously. */
  lemma DecimalLabelUnique(a: nat, e1: string, b: nat, e2: string)
    requires DigitFree(e1) && DigitFree(e2)
    requires Decimal(a) + e1 == Decimal(b) + e2
    ensures a == b && e1 == e2
  {
    var da, db := Decimal(a), Decimal(b);
    var s := da + e1;
    DigitRunOfNumber(da, e1);
    DigitRunOfNumber(db, e2);
    assert da == s[..|da|] == db;
    DecimalInjective(a, b);
    assert e1 == s[|da|..] == e2;
  }

  /** `f"extracted_frame_{frame_idx + 1}{ext}"` */
  function FrameFileName(frameIdx: nat, ext: string): string {
    "extracted_frame_" + Decimal(frameIdx + 1) + ext
  }

  /** Two frames receive the same output name only if they are the same frame with the same label. */
  lemma FrameFileNameInjective(i: nat, e1: string, j: nat, e2: string)
    requires DigitFree(e1) && DigitFree(e2)
    requires FrameFileName(i, e1) == FrameFileName(j, e2)
    ensures i == j && e1 == e2
  {
    var p := "extracted_frame_";
    assert FrameFileName(i, e1) == p + (Decimal(i + 1) + e1);
    assert FrameFileName(j, e2) == p + (Decimal(j + 1) + e2);
    assert Decimal(i + 1) + e1 == FrameFileName(i, e1)[|p|..];
    DecimalLabelUnique(i + 1, e1, j + 1, e2);
  }

  /** `f"{file_name}_block{block_idx}{file_ext}"` */
  function BlockFileName(fileName: string, blockIdx: nat, ext: string): string {
    fileName + "_block" + Decimal(blockIdx) + ext
  }

  /** Within one input file, distinct block numbers give distinct save names. */
  lemma BlockFileNameInjective(fileName: string, i: nat, e1: string, j: nat, e2: string)
    requires DigitFree(e1) && DigitFree(e2)
    requires BlockFileName(fileName, i, e1) == BlockFileName(fileName, j, e2)
    ensures i == j && e1 == e2
  {
    var p := fileName + "_block";
    assert BlockFileName(fileName, i, e1) == p + (Decimal(i) + e1);
    assert BlockFileName(fileName, j, e2) == p + (Decimal(j) + e2);
    assert Decimal(i) + e1 == BlockFileName(fileName, i, e1)[|p|..];
    DecimalLabelUnique(i, e1, j, e2);
  }
}
