/** Shared vocabulary of the encoder: bytes, optional values, powers of two and
    the conversions that JavaScript typed arrays apply when a number is stored. */
module Common {

  /** A value held by a Uint8Array element. */
  type Byte = x: int | 0 <= x < 256

  datatype Option<+T> = None | Some(value: T)

  function Pow2(n: nat): (r: nat)
    ensures r >= 1
  {
    if n == 0 then 1 else 2 * Pow2(n - 1)
  }

  /** Storing an integral number into a Uint8Array keeps it modulo 256
      (for negative numbers too: -1 is stored as 255). Dafny's `%` is
      Euclidean, which is exactly this conversion. */
  function ToUint8(x: int): (r: Byte)
    ensures 0 <= x < 256 ==> r == x
    ensures (r - x) % 256 == 0
  {
    x % 256
  }

  /** Reading `s[k]` in JavaScript: an index outside the array yields
      `undefined`, which every typed-array store and every bitwise operator
      turns into 0. */
  function ElemOrZero(s: seq<int>, k: int): (r: int)
    ensures 0 <= k < |s| ==> r == s[k]
    ensures !(0 <= k < |s|) ==> r == 0
  {
    if 0 <= k < |s| then s[k] else 0
  }

  function Max(a: int, b: int): int { if a < b then b else a }
}
