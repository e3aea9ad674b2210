/** Bytes, optional values and the small string and word helpers shared by the
    ProDOS walker and the hi-res decoder. */
module Util {

  /** An unsigned byte, as Java's `b & 0xFF` sees a signed `byte`. */
  type byte = x: int | 0 <= x < 256

  datatype Option<+T> = None | Some(value: T)

  /** `n` zero bytes: a freshly allocated Java byte array. */
  function Zeros(n: nat): (r: seq<byte>)
    ensures |r| == n
    ensures forall i :: 0 <= i < n ==> r[i] == 0
  {
    seq(n, _ => 0)
  }

  /** Java's `(byte) b` read back as a signed value, -128..127. */
  function SignedByte(b: byte): (r: int)
    ensures -128 <= r < 128
    ensures r % 256 == b
  {
    if b < 128 then b else b - 256
  }

  /** `(lo & 0xFF) | ((hi & 0xFF) << 8)`: a little-endian 16-bit word. */
  function Word(lo: byte, hi: byte): (r: int)
    ensures 0 <= r < 0x10000
    ensures r == 0 <==> lo == 0 && hi == 0
  {
    lo + 256 * hi
  }

  /** Java's `String.endsWith`. */
  predicate EndsWith(s: string, suffix: string)
  {
    |suffix| <= |s| && s[|s| - |suffix|..] == suffix
  }

  /** Java's `String.startsWith`. */
  predicate StartsWith(s: string, prefix: string)
  {
    |prefix| <= |s| && s[..|prefix|] == prefix
  }

  /** The empty list is a left unit of concatenation. */
  lemma EmptyAppend<T>(s: seq<T>)
    ensures [] + s == s
  {
  }

  /** Concatenation is associative. */
  lemma AppendAssoc<T>(a: seq<T>, b: seq<T>, c: seq<T>)
    ensures (a + b) + c == a + (b + c)
  {
  }

  /** Appending the next element of s to a list that ends with the first i elements of s. */
  lemma AppendNext<T>(a: seq<T>, s: seq<T>, i: nat)
    requires i < |s|
    ensures (a + s[..i]) + [s[i]] == a + s[..i + 1]
  {
    assert s[..i + 1] == s[..i] + [s[i]];
  }
}
