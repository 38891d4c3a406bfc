/**
 * CRC-32 as used by PNG (ISO/IEC 15948, section 5.5 and Annex D): the reflected
 * polynomial 0xEDB88320, a register preset to all ones and a final complement.
 * This is the checksum the Go standard library computes as crc32.ChecksumIEEE.
 */
module Crc32 {
  import opened BigEndian

  /** The 32-bit shift register. */
  type register = bv32

  const Polynomial: register := 0xEDB8_8320

  /** One input bit through the reflected shift register: the register shifts right, and
      the polynomial is added when the bit shifted out differs from the input bit. This is
      the usual "add the byte to the low bits, then shift eight times" computed one bit
      at a time. */
  function Step(c: register, bit: bool): register
  {
    if (c & 1 == 1) != bit then (c >> 1) ^ Polynomial else c >> 1
  }

  /** The low `k` bits of `b` through the register, least significant first. */
  function FeedBits(c: register, b: nat, k: nat): register
    decreases k
  {
    if k == 0 then c else FeedBits(Step(c, b % 2 == 1), b / 2, k - 1)
  }

  /** The register after feeding the bytes of `s`, each least significant bit first. */
  function Update(c: register, s: seq<byte>): register
    decreases |s|
  {
    if s == [] then c else Update(FeedBits(c, s[0], 8), s[1..])
  }

  /** The CRC-32 of `s`. */
  function Checksum(s: seq<byte>): (crc: u32)
    ensures s == [] ==> crc == 0
  {
    (Update(0xFFFF_FFFF, s) ^ 0xFFFF_FFFF) as u32
  }

  /** Feeding a byte in front of `s` is feeding its eight bits, then feeding `s`. */
  lemma UpdateCons(c: register, b: byte, s: seq<byte>)
    ensures Update(c, [b] + s) == Update(FeedBits(c, b, 8), s)
  {
    assert ([b] + s)[1..] == s;
  }

  /** The register can be fed in pieces: feeding `a + b` is feeding `a`, then `b`. So the
      CRC of a chunk's type followed by its payload continues the register of the type. */
  lemma {:induction false} UpdateAppend(c: register, a: seq<byte>, b: seq<byte>)
    ensures Update(c, a + b) == Update(Update(c, a), b)
    decreases |a|
  {
    if a == [] {
      assert a + b == b;
    } else {
      assert (a + b)[0] == a[0] && (a + b)[1..] == a[1..] + b;
      UpdateAppend(FeedBits(c, a[0], 8), a[1..], b);
    }
  }

  /** The CRC stored in every IEND chunk, the CRC of the four bytes "IEND". */
  lemma IendCheckValue()
    ensures Checksum([0x49, 0x45, 0x4E, 0x44]) == 0xAE42_6082
  {
    assert FeedBits(0xFFFF_FFFF, 0x49, 8) == 0x22FD_E946;
    assert FeedBits(0x22FD_E946, 0x45, 8) == 0x992B_AC53;
    assert FeedBits(0x992B_AC53, 0x4E, 8) == 0x639F_4775;
    assert FeedBits(0x639F_4775, 0x44, 8) == 0x51BD_9F7D;
    UpdateCons(0xFFFF_FFFF, 0x49, [0x45, 0x4E, 0x44]);
    UpdateCons(0x22FD_E946, 0x45, [0x4E, 0x44]);
    UpdateCons(0x992B_AC53, 0x4E, [0x44]);
    UpdateCons(0x639F_4775, 0x44, []);
    assert [0x49] + [0x45, 0x4E, 0x44] == [0x49, 0x45, 0x4E, 0x44];
    assert [0x45] + [0x4E, 0x44] == [0x45, 0x4E, 0x44];
    assert [0x4E] + [0x44] == [0x4E, 0x44];
    assert [0x44] + [] == [0x44];
  }
}
