/** Shared vocabulary: raw bytes and optional values. */
module Base {
  /** A byte string, as Python's `bytes`. */
  type Bytes = seq<bv8>

  datatype Option<+T> = None | Some(value: T)

  /** Python's `data[start:]` for a non-negative start: empty once start passes the end. */
  function Suffix(data: Bytes, start: nat): (s: Bytes)
    ensures start <= |data| ==> s == data[start..]
    ensures start > |data| ==> s == []
  {
    if start <= |data| then data[start..] else []
  }

  function Min(a: int, b: int): int { if a <= b then a else b }
}
