/** Byte strings. The server keeps every text as a `std::string` of raw bytes
    (UTF-8 where it is text), so the model works on sequences of bytes. */
module Bytes {

  datatype Option<T> = None | Some(value: T)

  newtype byte = x: int | 0 <= x < 256

  type Bytes = seq<byte>

  /** The bytes of an ASCII literal, one byte per character. */
  function Ascii(s: string): (b: Bytes)
    ensures |b| == |s|
  {
    seq(|s|, i requires 0 <= i < |s| => (s[i] as int % 256) as byte)
  }

  const LF: byte := 0x0A
  const CR: byte := 0x0D
  const SPACE: byte := 0x20
  const MINUS: byte := 0x2D
  const ZERO: byte := 0x30
  const LESS_THAN: byte := 0x3C
  const BACKSLASH: byte := 0x5C
  const LOWER_N: byte := 0x6E
  const PIPE: byte := 0x7C

  /** The UTF-8 byte-order mark EF BB BF. */
  const BOM: Bytes := [0xEF, 0xBB, 0xBF]

  /** `std::string::replace(pos, 1, with)`: the byte at `pos` replaced by
      the bytes `with`. */
  function ReplaceByte(s: Bytes, pos: nat, with: Bytes): (r: Bytes)
    requires pos < |s|
    ensures |r| == |s| - 1 + |with|
  {
    s[..pos] + with + s[pos + 1..]
  }

  /** `std::string::find(b, from)`: the first index at or after `from` that
      holds `b`, or None (the source's `npos`) when there is none. */
  function FindByte(s: Bytes, b: byte, from: nat): (r: Option<nat>)
    ensures r.Some? ==> from <= r.value < |s| && s[r.value] == b
    ensures r.Some? ==> forall k :: from <= k < r.value ==> s[k] != b
    ensures r.None? ==> forall k :: from <= k < |s| ==> s[k] != b
    decreases |s| - from
  {
    if from >= |s| then None
    else if s[from] == b then Some(from)
    else FindByte(s, b, from + 1)
  }
}
