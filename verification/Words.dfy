/** Go's fixed-width unsigned integers, and the big-endian packing of `encoding/binary`. */
module Words {

  const TWO_32: int := 0x1_0000_0000

  type uint8 = x: int | 0 <= x < 0x100
  type uint16 = x: int | 0 <= x < 0x1_0000
  type uint32 = x: int | 0 <= x < 0x1_0000_0000
  type uint64 = x: int | 0 <= x < 0x1_0000_0000_0000_0000

  datatype Option<+T> = None | Some(value: T)

  datatype Result<+T, +E> = Ok(value: T) | Err(error: E)

  /** Conversion to `uint32`: keeps the low 32 bits. */
  function Wrap32(x: int): uint32 {
    x % TWO_32
  }

  function Be16(x: uint16): (b: seq<uint8>)
    ensures |b| == 2
  {
    [x / 0x100, x % 0x100]
  }

  function Be32(x: uint32): (b: seq<uint8>)
    ensures |b| == 4
  {
    [x / 0x100_0000, x / 0x1_0000 % 0x100, x / 0x100 % 0x100, x % 0x100]
  }

  function U16(b: seq<uint8>): uint16
    requires |b| == 2
  {
    b[0] as int * 0x100 + b[1]
  }

  function U32(b: seq<uint8>): uint32
    requires |b| == 4
  {
    b[0] as int * 0x100_0000 + b[1] as int * 0x1_0000 + b[2] as int * 0x100 + b[3]
  }

  /** The four-byte packing loses nothing, in either direction. */
  lemma Be32RoundTrip(x: uint32, b: seq<uint8>)
    requires |b| == 4
    ensures U32(Be32(x)) == x
    ensures Be32(U32(b)) == b
  {
    PackedDigits(x);
    UnpackedDigits(b[0], b[1], b[2], b[3]);
  }

  lemma PackedDigits(x: uint32)
    ensures x / 0x100_0000 * 0x100_0000 + x / 0x1_0000 % 0x100 * 0x1_0000 + x / 0x100 % 0x100 * 0x100 + x % 0x100 == x
  {
    var q: int := x / 0x100;
    var r: int := q / 0x100;
    assert x / 0x1_0000 == r && x / 0x100_0000 == r / 0x100;
    assert q == r * 0x100 + q % 0x100 && r == r / 0x100 * 0x100 + r % 0x100;
  }

  lemma UnpackedDigits(a: uint8, b: uint8, c: uint8, d: uint8)
    ensures var y: int := a as int * 0x100_0000 + b as int * 0x1_0000 + c as int * 0x100 + d;
      y / 0x100_0000 == a && y / 0x1_0000 % 0x100 == b && y / 0x100 % 0x100 == c && y % 0x100 == d
  {
    var z: int := a as int * 0x1_0000 + b as int * 0x100 + c;
    var y: int := z * 0x100 + d;
    assert y / 0x100 == z && y / 0x1_0000 == z / 0x100 && y / 0x100_0000 == z / 0x1_0000;
    assert z / 0x100 == a as int * 0x100 + b && z / 0x1_0000 == a;
  }

  lemma Be16RoundTrip(x: uint16, b: seq<uint8>)
    requires |b| == 2
    ensures U16(Be16(x)) == x
    ensures Be16(U16(b)) == b
  {
  }

  function Be64(x: uint64): (b: seq<uint8>)
    ensures |b| == 8
  {
    Be32(x / TWO_32) + Be32(x % TWO_32)
  }

  function U64(b: seq<uint8>): uint64
    requires |b| == 8
  {
    U32(b[..4]) as int * TWO_32 + U32(b[4..])
  }

  lemma Be64RoundTrip(x: uint64)
    ensures U64(Be64(x)) == x
  {
    hide Be32, U32;
    var hi, lo := Be32(x / TWO_32), Be32(x % TWO_32);
    assert Be64(x)[..4] == hi && Be64(x)[4..] == lo;
    Be32RoundTrip(x / TWO_32, hi);
    Be32RoundTrip(x % TWO_32, lo);
  }
}
