/** Go's built-in value types as the handlers see them: a Go `string` is an
    immutable sequence of bytes, and `int` is a 64-bit signed integer on the
    platforms the server targets. */
module GoTypes {

  newtype byte = b: int | 0 <= b < 256

  /** The contents of a Go `string` (or `[]byte`). `len(s)` is `|s|`. */
  type Bytes = seq<byte>

  const MinInt64: int := -0x8000_0000_0000_0000
  const MaxInt64: int := 0x7fff_ffff_ffff_ffff

  /** A value or its absence, for lookups and parses that can fail. */
  datatype Option<+T> = None | Some(value: T)

  predicate IsInt64(n: int) {
    MinInt64 <= n <= MaxInt64
  }

  /** The bytes of a Go string literal written with ASCII characters only. */
  function Lit(s: string): (r: Bytes)
    requires forall i :: 0 <= i < |s| ==> s[i] as int < 128
    ensures |r| == |s|
    ensures forall i :: 0 <= i < |s| ==> r[i] as int == s[i] as int
  {
    seq(|s|, i requires 0 <= i < |s| => s[i] as int as byte)
  }
}
