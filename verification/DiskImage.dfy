/** Image files as bytes. */
module DiskImage {

  type Byte = b: int | 0 <= b < 256

  datatype Option<T> = None | Some(value: T)

  /** Four bytes, low first. */
  function LongAt(img: seq<Byte>, at: nat): nat
    requires at + 4 <= |img|
  {
    var b0: int, b1: int, b2: int, b3: int := img[at], img[at + 1], img[at + 2], img[at + 3];
    b0 + b1 * 0x100 + b2 * 0x1_0000 + b3 * 0x100_0000
  }

  /** A run of bytes replaced. */
  function Stored<T>(img: seq<T>, off: nat, data: seq<T>): (r: seq<T>)
    requires off + |data| <= |img|
    ensures |r| == |img|
    ensures forall j | 0 <= j < |img| :: r[j] == if off <= j < off + |data| then data[j - off] else img[j]
  {
    img[..off] + data + img[off + |data|..]
  }
}
