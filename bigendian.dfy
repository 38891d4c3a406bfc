/** Bytes and the 4-byte big-endian unsigned integers used by PNG chunk framing. */
module BigEndian {

  /** Go's uint8. */
  type byte = x: int | 0 <= x < 0x100

  /** Go's uint32. */
  type u32 = x: int | 0 <= x < 0x1_0000_0000

  /** The unsigned 32-bit value of four bytes, most significant byte first
      (binary.BigEndian.Uint32 in Go): the first byte is the most significant, so it
      alone decides which block of 2^24 values the result lies in. */
  function Decode32(b: seq<byte>): (x: u32)
    requires |b| == 4
    ensures b[0] as int * 0x100_0000 <= x < (b[0] as int + 1) * 0x100_0000
  {
    b[0] as int * 0x100_0000 + b[1] as int * 0x1_0000 + b[2] as int * 0x100 + b[3] as int
  }

  /** The `n` low-order bytes of `x`, most significant byte first. */
  function ToBytes(x: nat, n: nat): (b: seq<byte>)
    ensures |b| == n
    decreases n
  {
    if n == 0 then [] else ToBytes(x / 0x100, n - 1) + [x % 0x100]
  }

  /** The four bytes of `x`, most significant byte first. */
  function Encode32(x: u32): (b: seq<byte>)
    ensures |b| == 4
  {
    ToBytes(x, 4)
  }

  lemma DecodeEncode32(x: u32)
    ensures Decode32(Encode32(x)) == x
  {
    var b := Encode32(x);
    assert b == [x / 0x100_0000, (x / 0x1_0000) % 0x100, (x / 0x100) % 0x100, x % 0x100] by {
      assert ToBytes(x, 4) == ToBytes(x / 0x100, 3) + [x % 0x100];
      assert ToBytes(x / 0x100, 3) == ToBytes(x / 0x1_0000, 2) + [(x / 0x100) % 0x100];
      assert ToBytes(x / 0x1_0000, 2) == ToBytes(x / 0x100_0000, 1) + [(x / 0x1_0000) % 0x100];
      assert ToBytes(x / 0x100_0000, 1) == [x / 0x100_0000];
    }
    assert x == b[0] * 0x100_0000 + x % 0x100_0000;
    assert x % 0x100_0000 == b[1] * 0x1_0000 + x % 0x1_0000;
    assert x % 0x1_0000 == b[2] as int * 0x100 + b[3] as int;
  }

  lemma EncodeDecode32(b: seq<byte>)
    requires |b| == 4
    ensures Encode32(Decode32(b)) == b
  {
    var x := Decode32(b);
    var x1 := b[0] as int * 0x1_0000 + b[1] as int * 0x100 + b[2] as int;
    var x2 := b[0] as int * 0x100 + b[1] as int;
    assert x == x1 * 0x100 + b[3] && x / 0x100 == x1 && x % 0x100 == b[3];
    assert x1 == x2 * 0x100 + b[2] && x1 / 0x100 == x2 && x1 % 0x100 == b[2];
    assert x2 / 0x100 == b[0] && x2 % 0x100 == b[1];
    assert ToBytes(x2, 2) == ToBytes(b[0], 1) + [b[1]];
    assert ToBytes(b[0], 1) == ToBytes(b[0] / 0x100, 0) + [b[0]];
    assert ToBytes(x, 4) == ToBytes(x1, 3) + [b[3]];
    assert ToBytes(x1, 3) == ToBytes(x2, 2) + [b[2]];
  }
}
