/** Go strings and []byte values are both byte sequences; the model uses one
    byte type for paths, file contents, manifest lines and header values. */
module Bytes {

  newtype byte = x: int | 0 <= x < 256

  datatype Option<T> = None | Some(value: T)

  /** The bytes of an ASCII string literal, one byte per character. */
  function Ascii(s: string): (r: seq<byte>)
    requires forall i :: 0 <= i < |s| ==> s[i] as int < 128
    ensures |r| == |s|
    ensures forall i :: 0 <= i < |s| ==> r[i] as int == s[i] as int
  {
    if s == [] then [] else [s[0] as int as byte] + Ascii(s[1..])
  }

  const Tab: byte := 0x09
  const Newline: byte := 0x0A
  const DoubleQuote: byte := 0x22
  const Slash: byte := 0x2F
  const Backslash: byte := 0x5C
}
