/** Bytes of a dive record and the little-endian 16-bit words built from them. */
module Bytes {

  type byte = x: int | 0 <= x < 0x100

  type word = x: int | 0 <= x < 0x1_0000

  /** The little-endian unsigned 16-bit value stored at data[pos], data[pos + 1]. */
  function LE16(data: seq<byte>, pos: nat): (w: word)
    requires pos + 2 <= |data|
    ensures w % 0x100 == data[pos] && w / 0x100 == data[pos + 1]
  {
    data[pos] as int + 0x100 * data[pos + 1] as int
  }

  /** Stores `v` little-endian at data[pos], data[pos + 1]; the encoder LE16 undoes. */
  function Put16(data: seq<byte>, pos: nat, v: word): (r: seq<byte>)
    requires pos + 2 <= |data|
    ensures |r| == |data|
    ensures LE16(r, pos) == v
    ensures forall i :: 0 <= i < |data| && i != pos && i != pos + 1 ==> r[i] == data[i]
  {
    data[pos := v % 0x100][pos + 1 := v / 0x100]
  }
}
