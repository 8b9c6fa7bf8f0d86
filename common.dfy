/** Small shared vocabulary: optional values and bytes. */
module Common {

  /** A value that may be absent; stands for JavaScript's `null` / `undefined`. */
  datatype Option<+T> = None | Some(value: T)

  /** An unsigned 8-bit value, as held by `Uint8Array`, `Uint8ClampedArray` and `Buffer`. */
  type Byte = b: int | 0 <= b < 256

  /** A loaded image (`HTMLImageElement`); its pixels are read only through canvas resampling. */
  datatype Image = Image(width: nat, height: nat, pixels: seq<Byte>)

  function Min(a: int, b: int): int
  {
    if a <= b then a else b
  }

  /** Extending a prefix of `s` by the next element of `s`. */
  lemma PrefixStep<T>(s: seq<T>, i: nat)
    requires i < |s|
    ensures s[..i + 1] == s[..i] + [s[i]]
  {
  }

  lemma PrefixAll<T>(s: seq<T>)
    ensures s[..|s|] == s
  {
  }
}
