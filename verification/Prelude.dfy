/** Shared value types: bytes, optional values and the suffix of a list. */
module Prelude {
  type byte = b: int | 0 <= b < 256

  type Bytes = seq<byte>

  datatype Option<+T> = None | Some(value: T)

  datatype Result<+T, +E> = Ok(value: T) | Err(error: E)

  /** Go's zero time, the start of the year 1, in nanoseconds from the start of 1970. */
  const ZERO_TIME: int := -62_135_596_800_000_000_000

  function Min(a: nat, b: nat): nat {
    if a < b then a else b
  }

  /** The last `n` items, or all of them when there are fewer. */
  function LastN<T>(s: seq<T>, n: nat): seq<T> {
    if |s| <= n then s else s[|s| - n..]
  }

  predicate Distinct<T(==)>(s: seq<T>) {
    forall i, j :: 0 <= i < j < |s| ==> s[i] != s[j]
  }

  lemma Regroup<T>(a: seq<T>, b: seq<T>, c: seq<T>)
    ensures a + (b + c) == a + b + c
  {
  }
}
