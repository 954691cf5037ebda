/** Shared vocabulary of the model: Go's byte strings, the error kinds the
    repository and service layers produce, a Result/Option pair for
    Go's `(value, error)` returns, int64/int32 bounds, and a few sequence
    helpers used by several stores. */
module Base {

  /** A Go `byte`; Go strings are byte sequences, so `len(s)` counts bytes. */
  newtype byte = x: int | 0 <= x < 256

  /** A Go `string` holding user-supplied text (logins, names, message bodies). */
  type Bytes = seq<byte>

  datatype Option<T> = None | Some(value: T)

  /** The errors the model distinguishes. `NoRows` is `sql.ErrNoRows`;
      `Storage` is any other failure reported by the database driver. */
  datatype Error =
    | NoRows
    | Storage
    | HashMismatch          // bcrypt.CompareHashAndPassword rejected the password
    | HashFailure           // bcrypt.GenerateFromPassword failed
    | CallFailed            // the Tarantool call itself returned an error
    | InvalidDataLength     // "invalid response Data length"
    | Conversion            // "conversion error"
    | Panic                 // an unchecked type assertion or nil dereference

  datatype Result<T> = Ok(value: T) | Err(error: Error)

  /** Outcome of an operation that returns only a Go `error`. */
  datatype Status = Done | Failed(error: Error)

  const MaxInt64: int := 0x7FFF_FFFF_FFFF_FFFF
  const MinInt64: int := -0x8000_0000_0000_0000
  const MaxInt32: int := 0x7FFF_FFFF
  const MinInt32: int := -0x8000_0000

  predicate IsInt32(x: int) { MinInt32 <= x <= MaxInt32 }

  /** `atomic.AddInt32(&x, 1)`: two's-complement wrap-around at 2^31. */
  function IncInt32(x: int): (r: int)
    requires IsInt32(x)
    ensures IsInt32(r)
    ensures x < MaxInt32 ==> r == x + 1
    ensures x == MaxInt32 ==> r == MinInt32
  {
    if x == MaxInt32 then MinInt32 else x + 1
  }

  function Min(a: int, b: int): int { if a <= b then a else b }

  predicate StartsWith<T(==)>(s: seq<T>, prefix: seq<T>) {
    |prefix| <= |s| && s[..|prefix|] == prefix
  }

  /** SQL `LIMIT n` for a non-negative n: the first n elements, or all of them. */
  function Take<T>(s: seq<T>, n: nat): (r: seq<T>)
    ensures |r| == Min(|s|, n)
    ensures forall i :: 0 <= i < |r| ==> r[i] == s[i]
  {
    if n >= |s| then s else s[..n]
  }

  /** Index of the first element satisfying `p`: the row a `QueryRow` scan
      returns when several rows match. */
  function FirstIndex<T>(s: seq<T>, p: T -> bool): (r: Option<nat>)
    ensures r.Some? ==> r.value < |s| && p(s[r.value])
    ensures r.Some? ==> forall j :: 0 <= j < r.value ==> !p(s[j])
    ensures r.None? <==> forall j :: 0 <= j < |s| ==> !p(s[j])
  {
    if s == [] then None
    else if p(s[0]) then Some(0)
    else match FirstIndex(s[1..], p)
      case None => None
      case Some(k) => Some(k + 1)
  }
}
