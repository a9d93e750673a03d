/** Small shared types: optional values, bytes and the 64-bit unsigned range. */
module Common {

  datatype Option<+T> = None | Some(value: T)

  type byte = x: int | 0 <= x < 256

  type Bytes = seq<byte>

  const TWO_64: int := 0x1_0000_0000_0000_0000

  /** The bytes of a text of ASCII characters. */
  function Ascii(s: string): (b: Bytes)
    ensures |b| == |s|
  {
    seq(|s|, i requires 0 <= i < |s| => if s[i] as int < 128 then s[i] as int else 0)
  }

  type u64 = x: int | 0 <= x < TWO_64
}
